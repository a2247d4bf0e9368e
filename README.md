# Prometheus Rack exporter and Gauge, in Dafny

This project models the core of the Ruby Prometheus client's Rack middleware
`Prometheus::Middleware::Exporter` (`lib/prometheus/middleware/exporter.rb`).
It also models the Gauge contract that `spec/prometheus/client/gauge_spec.rb`
pins down.

The exporter answers requests for its path (default `/metrics`). It samples
the CPU load averages into a `cpu_load` gauge and negotiates an exposition
format from the request's `Accept` header. It then answers 200 with the
registry in that format, or 406 with the list of supported media types. Any
other request goes to the wrapped application unchanged.

Negotiation works in four steps:

1. The header is split on commas and every media range on semicolons, with
   Ruby's `split(/\s*,\s*/)` and `split(/\s*;\s*/)` semantics.
2. The `q=` attributes are removed, and the last one gives the weight.
3. The remaining attributes, joined with `"; "`, are the lookup key.
4. The candidates are ordered heaviest first. The first key found in a table
   built from `FORMATS` wins. The table holds each format's content type and
   media type, plus `*/*` for the fallback.

Files:

- `wrappers.dfy`: `Option`.
- `ruby_text.dfy` (module `RubyText`): the parts of Ruby's String API the
  parser relies on.
  - `split` with `/\s*SEP\s*/`, where `\s` is space, tab, LF, VT, FF, CR.
  - `split` with a literal string.
  - `join` and `start_with?`.
  - Three round-trip lemmas. `JoinPieces`: joining the pieces of a split on
    a character gives back any string. `JoinPiecesAround`: the same for a
    split on a literal string. `SplitGlued`: `split(/\s*SEP\s*/)` undoes
    `Glued`, which puts SEP between the parts with its own whitespace on
    either side of each separator (so "a,b", "a, b", "a , b" and "a,b, c"
    all split back to the parts). This holds only on canonical parts (no
    SEP, no surrounding whitespace, last part non-empty). `SplitJoin` is the
    case where every separator carries the same whitespace.
    `start_with?` has no inverse.
- `accept.dfy` (module `AcceptParsing`): `extract_quality`, `parse`, and the
  first-match scan of `negotiate`.
- `gauge.dfy` (module `Metrics`):
  - the label-set-keyed `Gauge` class with `set`/`get`;
  - a `Registry` placeholder;
  - the three `#set` examples of the Gauge tests, as methods.
- `exporter.dfy` (module `Middleware`):
  - formats and the dictionary;
  - `negotiate`, `respond_with` and `not_acceptable`;
  - the `Exporter` class with `initialize`, `call` and `instrument_cpu`;
  - lemmas about whole requests.

## Model

| member | source | states |
|---|---|---|
| Middleware.Exporter.constructor | lib/prometheus/middleware/exporter.rb:21-27 | The path defaults to "/metrics" when none is given. The registry and app are kept. The acceptable table is the dictionary built from FORMATS and FALLBACK. A fresh `cpu_load` gauge with the docstring "Current CPU Load" and no values is created. |
| Middleware.Exporter.Call | lib/prometheus/middleware/exporter.rb:29-37 | On the export path (`OnPath`: `PATH_INFO` equals the path), the three load averages are stored under the pid, and the response is the negotiated 200 answer or the 406 answer. On any other path, the response is `app(env)` and the gauge is unchanged. |
| Middleware.Exporter.InstrumentCpu | lib/prometheus/middleware/exporter.rb:46-50 | The gauge afterwards holds the 1, 5 and 15 minute averages under `{load_avg: window, pid: pid}` (the label sets `CpuLabels`, the new state `Sampled`). Every other label set keeps its value. |
| Middleware.Negotiate | lib/prometheus/middleware/exporter.rb:52-58 | The loop returns the first parsed candidate's format whose key is in the table (or `*/*` when the header is missing). The result is None exactly when no candidate's key is in the table. Otherwise it is the format of a candidate of greatest weight among those that match. |
| Middleware.NegotiationChoice | lib/prometheus/middleware/exporter.rb:52-58 | For any header, negotiation fails iff no candidate key is in the table, and otherwise picks the format of a heaviest matching candidate. |
| Middleware.PreferredAt | lib/prometheus/middleware/exporter.rb:53-54 | Once the scan meets the first candidate whose key is in the table, that candidate's format is the result. |
| AcceptParsing.Preferred | lib/prometheus/middleware/exporter.rb:53-57 | Returns None iff no key in the order is in the table. Otherwise returns the format of the first candidate, in order, whose key is in the table. |
| AcceptParsing.PreferredIsBest | lib/prometheus/middleware/exporter.rb:53-66 | For every heaviest-first permutation of the candidates, the first match is a heaviest matching candidate. There is a match iff some key is in the table. A weight of 0 does not exclude a candidate. |
| AcceptParsing.Parse | lib/prometheus/middleware/exporter.rb:60-67 | The parsed list is a permutation (same multiset) of the header's candidates, in non-increasing weight. |
| AcceptParsing.SortByQuality | lib/prometheus/middleware/exporter.rb:66 | `sort_by(&:last)` gives a permutation of its input in ascending weight. |
| AcceptParsing.Insert | lib/prometheus/middleware/exporter.rb:66 | Inserting into an ascending list keeps it ascending and adds exactly the one candidate. |
| AcceptParsing.Reverse | lib/prometheus/middleware/exporter.rb:66 | `reverse` puts element `i` at position `n-1-i` and keeps the multiset. |
| AcceptParsing.Candidates | lib/prometheus/middleware/exporter.rb:61-65 | There is one candidate per media range that `split(/\s*,\s*/)` yields. |
| AcceptParsing.ParsePlainRange | lib/prometheus/middleware/exporter.rb:62-65 | Plain attributes glued by semicolons, each with its own whitespace around it (none, "; ", " ; ", mixed), have the key they make joined by "; ", at the default weight 1.0. |
| AcceptParsing.ParseWeightedRange | lib/prometheus/middleware/exporter.rb:62-65 | Appending a weight `q=v`, behind a semicolon, with each semicolon carrying its own whitespace, keeps the key (the other attributes joined by "; ") and makes the weight `to_f(v)`. |
| AcceptParsing.SingleRange | lib/prometheus/middleware/exporter.rb:61 | A non-empty header without a comma is exactly one candidate. |
| AcceptParsing.PlainHeader | lib/prometheus/middleware/exporter.rb:60-67 | A header of one unweighted range, with any whitespace (different at each semicolon) around its semicolons, has exactly the candidate (attributes joined by "; ", 1.0). |
| AcceptParsing.WeightedHeader | lib/prometheus/middleware/exporter.rb:60-67 | A header of one range ending in a weight `q=v`, with any whitespace (different at each semicolon) around its semicolons, has exactly the candidate (other attributes joined by "; ", `to_f(v)`). |
| AcceptParsing.JoinedRanges | lib/prometheus/middleware/exporter.rb:61-65 | Canonical ranges glued by commas, each with its own whitespace around it ("a,b", "a, b", "a , b", "a,b, c"), are read back one candidate per range, in order. |
| AcceptParsing.EmptyHeader | lib/prometheus/middleware/exporter.rb:53-61 | An empty (present) Accept header has no candidates, so nothing matches. |
| AcceptParsing.ParseRange | lib/prometheus/middleware/exporter.rb:61-65 | A range without ";" keeps the default weight 1.0 unless it is itself a `q=` attribute. A non-empty range without ";" that is not a weight is its own key. |
| AcceptParsing.QualityOf | lib/prometheus/middleware/exporter.rb:70-76 | The weight is the default or the weight of one of the `q=` attributes. |
| AcceptParsing.QualityValue | lib/prometheus/middleware/exporter.rb:73 | The weight is 0.0, or `to_f` of a non-empty text that does not contain "q=". |
| AcceptParsing.ExtractQuality | lib/prometheus/middleware/exporter.rb:69-77 | The loop leaves exactly the non-`q=` attributes in order, and the weight of the last `q=` attribute (the default when there is none). |
| AcceptParsing.WithoutQuality | lib/prometheus/middleware/exporter.rb:72-74 | An attribute survives `delete_if` iff it does not start with "q=" (`IsQuality`); the result is never longer. |
| AcceptParsing.WithoutQualityAppend | lib/prometheus/middleware/exporter.rb:72-74 | Deleting from a concatenation is deleting from each side, order kept. |
| AcceptParsing.WithoutQualityNone | lib/prometheus/middleware/exporter.rb:72-74 | With no `q=` attribute, every attribute is kept in order. |
| AcceptParsing.QualityDefault | lib/prometheus/middleware/exporter.rb:69-76 | With no `q=` attribute, the weight is the default. |
| AcceptParsing.QualityLastWins | lib/prometheus/middleware/exporter.rb:72-74 | The last `q=` attribute decides the weight. |
| AcceptParsing.QualityValueOf | lib/prometheus/middleware/exporter.rb:73 | `"q=" + v`, for a `v` without "q=", has the weight `to_f(v)`. |
| RubyText.Split | lib/prometheus/middleware/exporter.rb:61-62 | No piece contains the separator. No piece but the first starts, and no piece but the last ends, with whitespace (`TrimEdges`/`TrimEdge` remove the `\s*` on either side of each separator). The last piece is non-empty. Which pieces come out is fixed by `SplitGlued`, `SplitJoin` and `SplitWithoutSeparator`. |
| RubyText.SplitGlued | lib/prometheus/middleware/exporter.rb:61-65 | `split(/\s*SEP\s*/)` undoes gluing with SEP where each separator has its own whitespace runs on either side (compact, one space, padded, or mixed across separators), on unpadded, separator-free parts whose last part is non-empty. |
| RubyText.SplitJoin | lib/prometheus/middleware/exporter.rb:61-65 | `split(/\s*SEP\s*/)` undoes a join whose glue is SEP with the same whitespace runs on either side of every separator, on unpadded, separator-free parts whose last part is non-empty. |
| RubyText.JoinIsGlued | lib/prometheus/middleware/exporter.rb:65 | A `join` with glue `w1 + SEP + w2` is the gluing whose every separator carries `w1` before and `w2` after it. |
| RubyText.SplitWithoutSeparator | lib/prometheus/middleware/exporter.rb:61-62 | A string without the separator splits into itself, or into nothing when it is empty. |
| RubyText.Pieces | lib/prometheus/middleware/exporter.rb:61-62 | There is at least one piece, and no piece contains the separator. |
| RubyText.JoinPieces | lib/prometheus/middleware/exporter.rb:61-62 | Joining the pieces with the separator gives the string back. |
| RubyText.DropTrailingEmpty | lib/prometheus/middleware/exporter.rb:61-62 | The result is a prefix of the input that does not end in "", and only "" pieces were dropped. |
| RubyText.TrimStart | lib/prometheus/middleware/exporter.rb:61-62 | The result is a suffix of the input that does not start with whitespace. |
| RubyText.TrimEnd | lib/prometheus/middleware/exporter.rb:61-62 | The result is a prefix of the input that does not end with whitespace. |
| RubyText.TrimStartRemovesSpace | lib/prometheus/middleware/exporter.rb:61-62 | Only whitespace is removed from the start. |
| RubyText.TrimEndRemovesSpace | lib/prometheus/middleware/exporter.rb:61-62 | Only whitespace is removed from the end. |
| RubyText.PiecesAround | lib/prometheus/middleware/exporter.rb:73 | `split('q=', -1)` yields at least one piece. No piece contains the pattern, and the first piece is a prefix of the string. |
| RubyText.Join | lib/prometheus/middleware/exporter.rb:65 | The joined string begins with the first part. |
| RubyText.JoinPiecesAround | lib/prometheus/middleware/exporter.rb:73 | Joining the pieces with the pattern gives the string back. |
| RubyText.PiecesAroundFree | lib/prometheus/middleware/exporter.rb:73 | A string without the pattern is one piece. |
| RubyText.LastNonEmpty | lib/prometheus/middleware/exporter.rb:73 | `.last` after `split` gives None iff every piece is empty. Otherwise it gives the last non-empty piece. |
| Middleware.AcceptHeader | lib/prometheus/middleware/exporter.rb:53 | The Accept header when present, else "*/*". |
| Middleware.Dictionary | lib/prometheus/middleware/exporter.rb:97-102 | "*/*" is always a key, and every entry is the fallback or one of the formats. |
| Middleware.BuildDictionary | lib/prometheus/middleware/exporter.rb:97-102 | The loop builds the dictionary. Its keys are exactly `*/*` and every format's content type and media type. |
| Middleware.DictionaryKeys | lib/prometheus/middleware/exporter.rb:97-102 | The keys are exactly `*/*` plus every format's content type and media type. |
| Middleware.DictionaryLastWins | lib/prometheus/middleware/exporter.rb:99-100 | A key is filed under the last format that names it. |
| Middleware.DictionaryWildcard | lib/prometheus/middleware/exporter.rb:98 | `*/*` maps to the fallback unless a format is itself named `*/*`. |
| Middleware.ExporterTable | lib/prometheus/middleware/exporter.rb:18-25 | The exporter's table is exactly `*/*`, "text/plain; version=0.0.4" and "text/plain", all mapped to the text format. |
| Middleware.RespondWith | lib/prometheus/middleware/exporter.rb:79-85 | Status 200, the one header Content-Type set to the format's content type, and a body of one part: the registry in that format. |
| Middleware.RespondedTypeSelectsFormat | lib/prometheus/middleware/exporter.rb:79-85 | For any formats: the Content-Type of a 200 answer, sent back as the Accept header, selects the format that answered, when that content type is a list of bare attributes and no later format is filed under it. |
| Middleware.NotAcceptable | lib/prometheus/middleware/exporter.rb:87-95 | Status 406, the one header Content-Type set to "text/plain", and a body of one text that is "Supported media types: " followed by the media types joined by ", ". |
| Middleware.NotAcceptableListsMediaTypes | lib/prometheus/middleware/exporter.rb:87-95 | The list after the prefix splits back at the commas into the formats' media types, when they have no commas or surrounding whitespace. |
| Middleware.MediaTypes | lib/prometheus/middleware/exporter.rb:88 | One media type per format, in order. |
| Middleware.WildcardSelectsFallback | lib/prometheus/middleware/exporter.rb:53 | The header `*/*` selects the fallback when no format is named `*/*`. |
| Middleware.MissingAcceptServesFallback | lib/prometheus/middleware/exporter.rb:52-58 | A request without an Accept header is answered 200 in the text format. |
| Middleware.Exporter.Answer | lib/prometheus/middleware/exporter.rb:32-33 | The answer is the 406 answer, or the 200 answer for a format in the acceptable table. |
| Middleware.AnswerStatus | lib/prometheus/middleware/exporter.rb:32-33 | The answer is 200 iff some candidate key is in the table, and then it carries a heaviest match's format. Otherwise it is the 406 answer. |
| Middleware.SingleCandidate | lib/prometheus/middleware/exporter.rb:52-58 | A header with a single candidate selects the table entry under its key, or nothing. |
| Middleware.PaddedHeaderSelects | lib/prometheus/middleware/exporter.rb:52-67 | An unweighted single-range header, with any whitespace (different at each semicolon) around its semicolons, selects the entry under its attributes joined by "; ", or nothing. |
| Middleware.PlainHeaderSelects | lib/prometheus/middleware/exporter.rb:52-67 | An unweighted single-range header written with "; " selects the entry under that range, or nothing. |
| Middleware.CompactContentTypeSelects | lib/prometheus/middleware/exporter.rb:60-67 | Accept: "text/plain;version=0.0.4" is normalised to the table key "text/plain; version=0.0.4" and selects the text format. |
| Middleware.MixedSpacingSelects | lib/prometheus/middleware/exporter.rb:60-67 | Accept: "text/plain;version=0.0.4; q=0.5", whose two semicolons are spaced differently, is the one candidate "text/plain; version=0.0.4" at `to_f("0.5")` and selects the text format. |
| Middleware.CompactContentTypeServed | lib/prometheus/middleware/exporter.rb:29-33 | A request with Accept "text/plain;version=0.0.4" is answered 200 in the text format. |
| Middleware.ContentTypeSelects | lib/prometheus/middleware/exporter.rb:97-100 | Accept: "text/plain; version=0.0.4" selects the text format. |
| Middleware.MediaTypeSelects | lib/prometheus/middleware/exporter.rb:97-100 | Accept: "text/plain" selects the text format. |
| Middleware.OwnTypesSelectText | lib/prometheus/middleware/exporter.rb:29-33 | A request whose Accept is the exporter's own content type or media type is answered 200 in the text format. |
| Middleware.PartialWildcardSelectsNothing | lib/prometheus/middleware/exporter.rb:52-58 | Accept: "text/*" is not expanded and matches no key. |
| Middleware.PartialWildcardNotAcceptable | lib/prometheus/middleware/exporter.rb:29-33 | A request with Accept "text/*" gets the 406 answer. |
| Middleware.ZeroWeightCandidate | lib/prometheus/middleware/exporter.rb:60-67 | "text/plain; q=0" is the single candidate ("text/plain", `to_f("0")`). |
| Middleware.ZeroWeightStillServed | lib/prometheus/middleware/exporter.rb:29-33 | "text/plain; q=0" is still served 200 in the text format. |
| Middleware.AdvertisedTypesAccepted | lib/prometheus/middleware/exporter.rb:87-95 | The media types that a 406 lists, sent back joined by ", ", select a format. |
| Middleware.NotAcceptableListsAcceptedType | lib/prometheus/middleware/exporter.rb:87-95 | The exporter's 406 body is "Supported media types: text/plain". Sending that list back as the Accept header gets a 200. |
| Metrics.Gauge.constructor | spec/prometheus/client/gauge_spec.rb:7 | A new gauge has its name and docstring and no value under any label set. |
| Metrics.Gauge.Set | spec/prometheus/client/gauge_spec.rb:13-35 | A nil value raises ArgumentError and changes nothing. A number is stored under the label set, which `get` then reads back. Every other label set is unchanged. |
| Metrics.Gauge.Get | spec/prometheus/client/gauge_spec.rb:17-25 | `get` is nil exactly when nothing is stored under the label set, and otherwise the stored value. |
| Metrics.SetsAMetricValue | spec/prometheus/client/gauge_spec.rb:14-18 | `get` goes from nil to 42 across `set({}, 42)`. |
| Metrics.SetsAValueForALabelSet | spec/prometheus/client/gauge_spec.rb:20-26 | `get(test: 'value')` goes from nil to 42, and `get` of the empty label set stays nil. |
| Metrics.RejectsNil | spec/prometheus/client/gauge_spec.rb:28-34 | `set({}, nil)` raises ArgumentError and stores nothing. |

## Left out

- The text format's `CONTENT_TYPE` ("text/plain; version=0.0.4") and `MEDIA_TYPE` ("text/plain") are defined in `prometheus/client/formats/text`. That file is not part of this model, and the two constants are written in as the client library defines them.
- `format.marshal(@registry)`, the serialisation of the registry, stays symbolic: the body is `Exposition(format, registry)`.
- `Client.registry`, the global default, is not modelled. The constructor takes the registry as a parameter, standing for `options[:registry] || Client.registry`.
- `init_cpu_metrics` registers the gauge with the registry. Registration is not modelled: `Registry` is an empty class.
- `::Sys::CPU.load_avg` and `Process.pid` are parameters of `Call` and `InstrumentCpu`. The averages are reals and the pid is its string form.
- `Call` does not model a failing `load_avg`. The Ruby code has no `rescue`, so an exception there propagates out of `call`; it is not swallowed.
- `String#to_f` is left abstract as `toFloat`, so only the shape of a weight is modelled, not its decimal conversion. `nil.to_f`, for an attribute such as `q=` with nothing after it, is 0.0 explicitly.
- RubyText.Split: its own ensures give only the shape of the pieces. Their content is proved by `SplitGlued` for canonical parts glued with any whitespace around each separator, whether or not the separators are spaced alike, and by `SplitWithoutSeparator`. It is not proved for strings padded at their two ends, for strings ending in empty pieces, or for parts that are themselves padded.
- RubyText.Join: its own contract says only that the result begins with the first part. What a join means is stated by `JoinPieces`, `JoinPiecesAround` and `SplitJoin`, its inverses.
- AcceptParsing.Parse: the order among equal weights is not promised. Ruby's `sort_by` is not stable, and the `reverse` after it flips ties; the model fixes one order. Every negotiation lemma holds for every heaviest-first order. Header order among equal weights is therefore not preserved, and nothing here claims that it is.
- The Rack environment is a map of strings. Only `PATH_INFO` and `HTTP_ACCEPT` are read, and a missing `PATH_INFO` counts as off the path.
- Metrics.Gauge.Set: values are `real`. Ruby's check that a value is numeric is modelled as `None`, which stands for nil and every non-number.
- Metrics.Gauge.Set: label validation (reserved or invalid label names) is not modelled.
- Symbol and string label keys are not distinguished; a label set is a `map<string, string>`.
- Metrics.Gauge.Get: in the tests, `gauge.get` returns a value object and `.get` unwraps it. The model returns the value directly.
- The shared `Prometheus::Client::Metric` examples that the Gauge tests include are not modelled.
- Concurrency between requests is not modelled.
