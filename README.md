# WebPing configuration layer in Dafny

WebPing is a Windows service that requests a list of web sites on a fixed
interval. This project models the part of it that turns configuration into
values the prober uses:

- the three timing settings: HTTP timeout, cycle interval and wait timeout;
- the two boolean flags, `ignoreCertificationError` and
  `changeCurrentDirectoryToExeFilePath`;
- the site-list parser, which turns the lines of the site-list file into
  `SiteListItem` targets (method and absolute URI);
- the custom-header extraction from the application settings keys;
- the `SiteListItem` value, its validating constructor and `ToString`.

Modules, one per source file, plus two of support:

- `Wrappers`: `Option` (a null value) and `Result` (a value or a thrown exception).
- `Text`: the .NET primitives the two files rely on. These are white space
  (`Char.IsWhiteSpace`, which is also `\s`), ordinal case folding, ordinal
  `StartsWith`, `Trim`, and the `.` of a regular expression (any character
  but a line feed). `GreedySplit` gives the backtracking semantics of a
  greedy `C*` or `C+` followed by `.+`: the class run is tried longest
  first and given back one character at a time, so the split is the largest
  admissible one.
- `SiteListItems` (SiteListItem.cs): `HttpMethod`, a `Uri` with only the
  parts the code reads, the `Error` for the three exceptions, the item
  datatype, `New` (the constructor) and `ToString`.
- `ConfigurationAccessor` (ConfigurationAccessor.cs): timing, flags, the
  site-list regular expression, the line parser and its loop, and the
  custom headers.

A TimeSpan is an integer count of 100-nanosecond ticks. What
`TimeSpan.TryParse` makes of a setting is a parameter `parsed: Option<int>`.
`Uri.TryCreate(_, UriKind.Absolute, _)` is a parameter
`tryCreate: string -> Option<Uri>`. The file read is a parameter
`fileLines: Option<seq<string>>`, which is None when the file is missing or
unreadable. The settings lookups are the key list and a function
`valueOf: string -> Option<string>`.

The two loops (`GetSiteListFromSiteListFilePath`, `GetCustomHeaders`) are
methods with `while` loops, proved equal to specification functions
(`SiteList`, a left fold of `Step` over the lines, and `CustomHeaders`). The
lemmas are proved about those functions. `SiteList` is related to an
independent reference: the items of the lines that produce one, in line
order (`Emitted`), unless some line's item is rejected (`FirstRaise`).

Behaviour of the code that a reader might not expect:

- A verb line whose URL parses but has a scheme other than `http`/`https`
  is not skipped. The `SiteListItem` constructor throws
  `NotSupportedException`, the loop does not catch it, and the whole parse
  fails. The model returns `Failure` (`UnsupportedSchemeAbortsParse`).
- Header keys need not contain a colon: the pattern is `^header:*(.+)`, so
  `headerX-Foo` gives header `X-Foo`. Because `:*` gives back a colon
  when nothing else follows, `header:` and `header:::` give the header
  name `:` (`OnlyColonsGiveColonHeader`). `header` alone gives nothing.
- The verb regular expression is not anchored. The leftmost verb occurrence
  followed by white space wins, so `TARGET http://x` is a GET of
  `http://x`. The bare-URI test is case-sensitive, so `HTTP://a.test` is
  not taken as a bare URI (`LineWithoutWhiteSpace`).
- Duplicate header names are kept in key order; nothing is merged.

## Model

| member | source | states |
|---|---|---|
| `Text.GreedySplit` | ClouDeveloper.WebPing/ConfigurationAccessor.cs:23-29 | the split a greedy `C{n,}` followed by `.+` makes: an admissible split (n or more class characters, then a non-line-feed character), the largest one, and None exactly when no split is admissible |
| `Text.TakeLine` | ClouDeveloper.WebPing/ConfigurationAccessor.cs:24 | the greedy `.+` group: the longest prefix without a line feed |
| `SiteListItems.New` | ClouDeveloper.WebPing/SiteListItem.cs:9-27 | null URI gives ArgumentNullException("uri"); a relative URI gives ArgumentException; an absolute URI with a scheme other than exactly `https`/`http` gives NotSupportedException; success exactly for absolute http(s) URIs; the item keeps the URI and the given method, or GET for a null method |
| `SiteListItems.NewRebuildsValidItem` | ClouDeveloper.WebPing/SiteListItem.cs:15-30 | rebuilding an item from its own method and URI succeeds exactly for valid items and gives the same item back |
| `SiteListItems.NullMethodIsGet` | ClouDeveloper.WebPing/SiteListItem.cs:22-23 | a null method and an explicit GET build the same item or the same exception |
| `SiteListItems.ToString` | ClouDeveloper.WebPing/SiteListItem.cs:32-36 | definition: method name, one space, `AbsoluteUri`; its properties are stated by `ToStringSplits` and `ConfigurationAccessor.ToStringParsesBack` |
| `SiteListItems.ToStringSplits` | ClouDeveloper.WebPing/SiteListItem.cs:32-36 | `ToString` is the method name, one space, then `AbsoluteUri`; it splits back at its first space |
| `ConfigurationAccessor.TimeSpanSetting` | ClouDeveloper.WebPing/ConfigurationAccessor.cs:84-99 | unparseable gives the default; a value below the floor gives the floor; any other value is kept |
| `ConfigurationAccessor.TimeSpanSettingIsClamped` | ClouDeveloper.WebPing/ConfigurationAccessor.cs:84-99 | with a default at or above the floor, the result is at least the floor and feeding it back changes nothing |
| `ConfigurationAccessor.HttpTimeout` | ClouDeveloper.WebPing/ConfigurationAccessor.cs:76-102 | at least 30 s; 100 s when unparseable; the parsed value raised to 30 s |
| `ConfigurationAccessor.IntervalTimeSpan` | ClouDeveloper.WebPing/ConfigurationAccessor.cs:104-130 | at least 1 min; 30 min when unparseable; the parsed value raised to 1 min |
| `ConfigurationAccessor.WaitTimeout` | ClouDeveloper.WebPing/ConfigurationAccessor.cs:132-158 | at least 30 s; 1 min when unparseable; the parsed value raised to 30 s |
| `ConfigurationAccessor.TimingAccessorsAreIdempotent` | ClouDeveloper.WebPing/ConfigurationAccessor.cs:16-21 | each default is at or above its floor, and each accessor is a fixed point on its own result |
| `ConfigurationAccessor.SettingIsTrue` | ClouDeveloper.WebPing/ConfigurationAccessor.cs:38 | definition: `String.Equals(value, "True", OrdinalIgnoreCase)` on a possibly null setting; its properties are stated by `SettingIsTrueSpelling` |
| `ConfigurationAccessor.SettingIsTrueSpelling` | ClouDeveloper.WebPing/ConfigurationAccessor.cs:38 | the ordinal case-insensitive comparison with "True" holds exactly for the sixteen spellings of "true"; a null setting is false |
| `ConfigurationAccessor.IgnoreCertificationError` | ClouDeveloper.WebPing/ConfigurationAccessor.cs:31-43 | true exactly when the setting is present and spells "true" in any case |
| `ConfigurationAccessor.ChangeCurrentDirectoryToExeFilePath` | ClouDeveloper.WebPing/ConfigurationAccessor.cs:45-57 | true exactly when the setting is present and spells "true" in any case |
| `ConfigurationAccessor.AlternativesAt` | ClouDeveloper.WebPing/ConfigurationAccessor.cs:23-25 | the verb alternation at one position: the first alternative, in pattern order, with which verb, `\s+` and `.+` all match; None exactly when none does; the groups are those of that alternative |
| `ConfigurationAccessor.MatchFrom` | ClouDeveloper.WebPing/ConfigurationAccessor.cs:206-211 | the unanchored match: the leftmost position where the pattern matches, with no match at any earlier position; None exactly when it matches nowhere |
| `ConfigurationAccessor.SiteListMatch` | ClouDeveloper.WebPing/ConfigurationAccessor.cs:206 | definition: `SiteListRegex.Match(eachLine)` is the unanchored search from position 0; its properties are stated by `MatchFrom` |
| `ConfigurationAccessor.MethodOfVerb` | ClouDeveloper.WebPing/ConfigurationAccessor.cs:215-241 | definition: the `switch` on the verb, None for its `default`; its properties are stated by `SwitchKnowsVerb` and `MatchedVerbIsSupported` |
| `ConfigurationAccessor.MatchedVerbIsSupported` | ClouDeveloper.WebPing/ConfigurationAccessor.cs:213-241 | for every match, the upper-cased, trimmed verb group is one the switch knows, and it maps to the matched alternative's method, so the `default` branch is unreachable |
| `ConfigurationAccessor.SwitchKnowsVerb` | ClouDeveloper.WebPing/ConfigurationAccessor.cs:215-237 | each of the seven verbs is its own trimmed form and the switch maps it to the method of that name |
| `ConfigurationAccessor.LineTarget` | ClouDeveloper.WebPing/ConfigurationAccessor.cs:185-248 | definition: the loop body up to the constructor call, None where it reaches `continue`; its properties are stated by `BlankAndCommentLinesAreSkipped`, `HttpLineIsBareUri`, `VerbLineTarget`, `LineWithoutWhiteSpace` and `WellFormedVerbLine` |
| `ConfigurationAccessor.ParseLine` | ClouDeveloper.WebPing/ConfigurationAccessor.cs:183-251 | a line that yields an item yields a valid one (absolute http/https URI) |
| `ConfigurationAccessor.BlankAndCommentLinesAreSkipped` | ClouDeveloper.WebPing/ConfigurationAccessor.cs:185-188 | blank, white-space-only and `#` lines never yield an item |
| `ConfigurationAccessor.HttpsPrefixIsSubsumed` | ClouDeveloper.WebPing/ConfigurationAccessor.cs:193-194 | for every line, `StartsWith("https") \|\| StartsWith("http")` holds exactly when `StartsWith("http")` does |
| `ConfigurationAccessor.HttpLineIsBareUri` | ClouDeveloper.WebPing/ConfigurationAccessor.cs:193-202 | a line starting with `http` is a GET of the whole line as URI, or nothing if it does not parse |
| `ConfigurationAccessor.VerbLineTarget` | ClouDeveloper.WebPing/ConfigurationAccessor.cs:204-248 | any other line yields a target exactly when the pattern matches and its url group parses, with the matched alternative's method and the parsed url |
| `ConfigurationAccessor.LineWithoutWhiteSpace` | ClouDeveloper.WebPing/ConfigurationAccessor.cs:193-211 | a line without white space that does not start with `http` (for instance `HTTP://a.test`) yields nothing |
| `ConfigurationAccessor.WellFormedVerbLine` | ClouDeveloper.WebPing/ConfigurationAccessor.cs:206-248 | a line of a verb in any case, white space and a single-line url is that verb's method with the parsed url |
| `ConfigurationAccessor.Step` | ClouDeveloper.WebPing/ConfigurationAccessor.cs:185-252 | definition: one turn of the loop, where an exception already thrown stays thrown and otherwise the line's outcome is added; its properties are stated by `FoldKeepsFailure` and `FoldMatchesReference` |
| `ConfigurationAccessor.Fold` | ClouDeveloper.WebPing/ConfigurationAccessor.cs:183-252 | definition: the loop from a given accumulator, as a left fold of `Step`; its properties are stated by `FoldKeepsFailure`, `FoldAppend` and `FoldMatchesReference` |
| `ConfigurationAccessor.SiteList` | ClouDeveloper.WebPing/ConfigurationAccessor.cs:183-253 | definition: the loop from the empty list; its properties are stated by `SiteListIsEmittedItems`, `SkippedLineIsInvisible` and `OnlySchemeCanAbortParse` |
| `ConfigurationAccessor.GetSiteListFromSiteListFilePath` | ClouDeveloper.WebPing/ConfigurationAccessor.cs:160-254 | a missing or empty file gives the empty list; otherwise the loop's result is `SiteList` of the lines |
| `ConfigurationAccessor.FoldKeepsFailure` | ClouDeveloper.WebPing/ConfigurationAccessor.cs:251 | once the constructor has thrown, no later line changes the result |
| `ConfigurationAccessor.FoldAppend` | ClouDeveloper.WebPing/ConfigurationAccessor.cs:183-252 | the loop over `a + b` is the loop over `a` continued over `b` |
| `ConfigurationAccessor.Emitted` | ClouDeveloper.WebPing/ConfigurationAccessor.cs:183-252 | the items of the lines, at most one per line, each valid |
| `ConfigurationAccessor.FirstRaiseIsFirst` | ClouDeveloper.WebPing/ConfigurationAccessor.cs:251 | the reported exception is that of the first line whose item is rejected; None exactly when no line's item is rejected |
| `ConfigurationAccessor.FoldMatchesReference` | ClouDeveloper.WebPing/ConfigurationAccessor.cs:183-253 | the loop from any accumulated list appends the emitted items, or throws the first rejection |
| `ConfigurationAccessor.SiteListIsEmittedItems` | ClouDeveloper.WebPing/ConfigurationAccessor.cs:183-253 | the site list is the items of the lines in line order, at most one per line and each valid, and it succeeds exactly when no line's item is rejected |
| `ConfigurationAccessor.SkippedLineIsInvisible` | ClouDeveloper.WebPing/ConfigurationAccessor.cs:183-211 | inserting a line that yields nothing between any other lines leaves the result unchanged |
| `ConfigurationAccessor.OnlySchemeCanAbortParse` | ClouDeveloper.WebPing/SiteListItem.cs:12-20 | if the URI parser only returns absolute URIs, the only exception the parse can throw is NotSupportedException |
| `ConfigurationAccessor.ToStringParsesBack` | ClouDeveloper.WebPing/SiteListItem.cs:32-36 | `ToString` of a valid item with a standard method, read back as a site-list line, gives the same item |
| `ConfigurationAccessor.BareUriThenPostLine` | ClouDeveloper.WebPing/ConfigurationAccessor.cs:193-251 | a bare URI line and a `POST <url>` line give a GET and a POST item, in that order |
| `ConfigurationAccessor.UnsupportedSchemeAbortsParse` | ClouDeveloper.WebPing/ConfigurationAccessor.cs:251 | a first line `GET <url>` whose url parses as an absolute URI of another scheme than http/https makes the whole parse throw NotSupportedException, whatever follows |
| `ConfigurationAccessor.HeaderName` | ClouDeveloper.WebPing/ConfigurationAccessor.cs:262-267 | definition: the `header` group of `CustomHeaderPrefixRegex` (lines 27-29), None when the key does not match; its properties are stated by `HeaderNameMatchesExactly`, `HeaderNameStripsColons` and `OnlyColonsGiveColonHeader` |
| `ConfigurationAccessor.HeaderNameMatchesExactly` | ClouDeveloper.WebPing/ConfigurationAccessor.cs:27-29 | a key matches exactly when it starts with `header` in any case and a non-line-feed character follows; `header` alone does not match |
| `ConfigurationAccessor.HeaderNameStripsColons` | ClouDeveloper.WebPing/ConfigurationAccessor.cs:27-29 | after `header` and any number of colons, a single-line name not starting with a colon is the header name |
| `ConfigurationAccessor.OnlyColonsGiveColonHeader` | ClouDeveloper.WebPing/ConfigurationAccessor.cs:27-29 | `header` followed only by colons gives the header name `:` |
| `ConfigurationAccessor.CustomHeaders` | ClouDeveloper.WebPing/ConfigurationAccessor.cs:260-270 | at most one header per key |
| `ConfigurationAccessor.CustomHeadersAreTheMatchingKeys` | ClouDeveloper.WebPing/ConfigurationAccessor.cs:260-270 | every header is named by a matching key and carries that key's value, and every matching key contributes its header |
| `ConfigurationAccessor.GetCustomHeaders` | ClouDeveloper.WebPing/ConfigurationAccessor.cs:256-273 | the loop's result is `CustomHeaders` of the keys |
| `ConfigurationAccessor.CustomHeadersAppend` | ClouDeveloper.WebPing/ConfigurationAccessor.cs:260-270 | headers follow key order: those of `a + b` are those of `a` followed by those of `b` |
| `ConfigurationAccessor.SingleKeyHeaders` | ClouDeveloper.WebPing/ConfigurationAccessor.cs:262-269 | one key contributes its header with its own value exactly when it matches |
| `ConfigurationAccessor.ApiKeyHeaderExample` | ClouDeveloper.WebPing/ConfigurationAccessor.cs:262-269 | `header:X-Api-Key` gives the header `X-Api-Key` with that key's value |

## Left out

- WebPingService.cs (the probing loop, its tasks, pause gate, cancellation, HTTP client and certificate callback) and Program.cs (entry point, current-directory change, console hook, service registration) are not part of this model: they are concurrency, timing and OS glue.
- `SiteListFilePath` (lines 59-74): `Path.GetFullPath` and environment-variable expansion are OS calls.
- `File.Exists` and `File.ReadAllLines` (lines 164-176) are the parameter `fileLines`; a read error and a missing file both give None.
- `ConfigurationManager.AppSettings` lookups are parameters; all `Trace` logging is left out.
- `TimeSpan.TryParse` and `Uri.TryCreate` are parameters: TimeSpan text syntax and URI parsing and normalisation are not modelled.
- The `HttpMethod` reflection at lines 178-181 computes a value that is never used.
- `StartsWith("https")`/`StartsWith("http")` at lines 193-194 use culture-sensitive comparison; the model compares ordinally.
- Regular-expression case-insensitivity is modelled as ASCII case folding. A .NET culture may also fold some non-ASCII letters onto the ASCII letters of the verbs or of `header`; those spellings are not modelled. The reverse is not modelled either: under a Turkish or Azeri current culture `IgnoreCase` folds the `I` of `OPTIONS` to a dotless `ı`, so `options http://a` does not match there, while the model matches it.
- `Char.IsWhiteSpace` and `\s` are one fixed set of characters, taken from the Unicode data .NET uses.
- TimeSpan is an unbounded integer. The parsed value is a 64-bit tick count, and the comparisons and constants never overflow, so the width does not matter here.
- `Uri` keeps only `IsAbsoluteUri`, `Scheme` and `AbsoluteUri`.
