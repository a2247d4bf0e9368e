// The Gauge metric as its tests pin it down
// (spec/prometheus/client/gauge_spec.rb): a store of one value per label set
// that `set` overwrites for one label set at a time and `get` reads back.
module Metrics {

  import opened Wrappers

  /**
   * Label names mapped to label values. Being a map, a label set is the same
   * key whatever order its pairs were written in.
   */
  type LabelSet = map<string, string>

  /** How a `set` ends: stored, or refused with Ruby's ArgumentError. */
  datatype Outcome = Ok | ArgumentError

  class Gauge {
    const name: string
    const docstring: string
    var values: map<LabelSet, real>

    /** A new gauge has no value under any label set. */
    constructor (name: string, docstring: string)
      ensures this.name == name && this.docstring == docstring
      ensures values == map[]
    {
      this.name := name;
      this.docstring := docstring;
      values := map[];
    }

    /** `get(labels = {})`: the value stored under `labels`, or `None` (Ruby's nil) if none was ever set. */
    function Get(labels: LabelSet := map[]): (value: Option<real>)
      reads this
      ensures value.Some? <==> labels in values
      ensures value.Some? ==> value.value == values[labels]
    {
      if labels in values then Some(values[labels]) else None
    }

    /**
     * `set(labels, value)`: `value` is `None` when the caller passes nil (or
     * anything that is not a number), which is refused before anything is
     * stored; a number overwrites the value under `labels` and under no other
     * label set.
     */
    method Set(labels: LabelSet, value: Option<real>) returns (outcome: Outcome)
      modifies this
      ensures value.None? ==> outcome == ArgumentError && values == old(values)
      ensures value.Some? ==> outcome == Ok && values == old(values)[labels := value.value]
      ensures Get(labels) == if value.Some? then value else old(Get(labels))
      ensures forall other :: other != labels ==> Get(other) == old(Get(other))
    {
      if value.None? {
        return ArgumentError;
      }
      values := values[labels := value.value];
      return Ok;
    }
  }

  /**
   * The registry whose metrics the exporter serves. Its own operations
   * (registration, lookup, the global default) are outside this model; it
   * only stands for the object handed to the formats' `marshal`.
   */
  class Registry {
    constructor () {}
  }

  /** 'sets a metric value': `get` reads nil before `set({}, 42)` and 42 after it. */
  method SetsAMetricValue() returns (before: Option<real>, after: Option<real>)
    ensures before == None && after == Some(42.0)
  {
    var gauge := new Gauge("foo", "foo description");
    before := gauge.Get();
    var _ := gauge.Set(map[], Some(42.0));
    after := gauge.Get();
  }

  /**
   * 'sets a metric value for a given label set': `get(test: 'value')` goes
   * from nil to 42 while `get` of the empty label set does not change.
   */
  method SetsAValueForALabelSet() returns (before: Option<real>, after: Option<real>,
                                           unlabelledBefore: Option<real>, unlabelledAfter: Option<real>)
    ensures before == None && after == Some(42.0)
    ensures unlabelledAfter == unlabelledBefore == None
  {
    var gauge := new Gauge("foo", "foo description");
    var labels := map["test" := "value"];
    assert "test" in labels && labels != map[];
    before, unlabelledBefore := gauge.Get(labels), gauge.Get();
    var _ := gauge.Set(labels, Some(42.0));
    after, unlabelledAfter := gauge.Get(labels), gauge.Get();
  }

  /** 'given an invalid value raises an ArgumentError': `set({}, nil)` is refused and stores nothing. */
  method RejectsNil() returns (outcome: Outcome, after: Option<real>)
    ensures outcome == ArgumentError && after == None
  {
    var gauge := new Gauge("foo", "foo description");
    outcome := gauge.Set(map[], None);
    after := gauge.Get();
  }
}
