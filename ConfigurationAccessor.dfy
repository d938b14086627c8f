/** The configuration layer of the prober: the three timing settings, the two
    boolean flags, the site-list line parser and the custom-header
    extraction. Settings lookups, the file read and the two .NET parsers
    (`TimeSpan.TryParse`, `Uri.TryCreate`) are parameters. */
module ConfigurationAccessor {
  import opened Wrappers
  import opened Text
  import opened SiteListItems

  // ---------------------------------------------------------------------
  // Timing settings. A TimeSpan is its count of 100-nanosecond ticks.
  // ---------------------------------------------------------------------

  const TicksPerSecond: int := 10_000_000

  const MinimumHttpTimeout: int := 30 * TicksPerSecond
  const DefaultHttpTimeout: int := 100 * TicksPerSecond
  const MinimumInterval: int := 60 * TicksPerSecond
  const DefaultInterval: int := 30 * 60 * TicksPerSecond
  const MinimumWaitTimeout: int := 30 * TicksPerSecond
  const DefaultWaitTimeout: int := 60 * TicksPerSecond

  /** The rule the three TimeSpan accessors share. `parsed` is what
      `TimeSpan.TryParse` made of the setting (None when it failed, which it
      does for a missing setting). */
  function TimeSpanSetting(parsed: Option<int>, fallback: int, minimum: int): (r: int)
    ensures parsed.None? ==> r == fallback
    ensures parsed.Some? && parsed.value < minimum ==> r == minimum
    ensures parsed.Some? && parsed.value >= minimum ==> r == parsed.value
  {
    match parsed
    case None => fallback
    case Some(temp) => if minimum > temp then minimum else temp
  }

  /** With a fallback at or above the floor, the result is never below the
      floor, and feeding the result back in changes nothing. */
  lemma TimeSpanSettingIsClamped(parsed: Option<int>, fallback: int, minimum: int)
    requires fallback >= minimum
    ensures TimeSpanSetting(parsed, fallback, minimum) >= minimum
    ensures var r := TimeSpanSetting(parsed, fallback, minimum);
      TimeSpanSetting(Some(r), fallback, minimum) == r
  {
  }

  /** `HttpTimeout`: default 100 seconds, floor 30 seconds. */
  function HttpTimeout(parsed: Option<int>): (r: int)
    ensures r >= MinimumHttpTimeout
    ensures parsed.None? ==> r == DefaultHttpTimeout
    ensures parsed.Some? ==> r == (if parsed.value < MinimumHttpTimeout then MinimumHttpTimeout else parsed.value)
  {
    TimeSpanSetting(parsed, DefaultHttpTimeout, MinimumHttpTimeout)
  }

  /** `IntervalTimeSpan`: default 30 minutes, floor 1 minute. */
  function IntervalTimeSpan(parsed: Option<int>): (r: int)
    ensures r >= MinimumInterval
    ensures parsed.None? ==> r == DefaultInterval
    ensures parsed.Some? ==> r == (if parsed.value < MinimumInterval then MinimumInterval else parsed.value)
  {
    TimeSpanSetting(parsed, DefaultInterval, MinimumInterval)
  }

  /** `WaitTimeout`: default 1 minute, floor 30 seconds. */
  function WaitTimeout(parsed: Option<int>): (r: int)
    ensures r >= MinimumWaitTimeout
    ensures parsed.None? ==> r == DefaultWaitTimeout
    ensures parsed.Some? ==> r == (if parsed.value < MinimumWaitTimeout then MinimumWaitTimeout else parsed.value)
  {
    TimeSpanSetting(parsed, DefaultWaitTimeout, MinimumWaitTimeout)
  }

  /** Each default is at or above its floor, and each accessor is a fixed
      point on its own result. */
  lemma TimingAccessorsAreIdempotent(parsed: Option<int>)
    ensures HttpTimeout(Some(HttpTimeout(parsed))) == HttpTimeout(parsed)
    ensures IntervalTimeSpan(Some(IntervalTimeSpan(parsed))) == IntervalTimeSpan(parsed)
    ensures WaitTimeout(Some(WaitTimeout(parsed))) == WaitTimeout(parsed)
    ensures DefaultHttpTimeout >= MinimumHttpTimeout && DefaultInterval >= MinimumInterval
      && DefaultWaitTimeout >= MinimumWaitTimeout
  {
  }

  // ---------------------------------------------------------------------
  // Boolean flags.
  // ---------------------------------------------------------------------

  /** `String.Equals(value, Boolean.TrueString, StringComparison.OrdinalIgnoreCase)`;
      None is a null setting. */
  predicate SettingIsTrue(setting: Option<string>)
  {
    setting.Some? && EqualsIgnoreCase(setting.value, "True")
  }

  /** The sixteen spellings of "true". */
  predicate SpellsTrue(s: string)
  {
    |s| == 4 && (s[0] == 't' || s[0] == 'T') && (s[1] == 'r' || s[1] == 'R')
    && (s[2] == 'u' || s[2] == 'U') && (s[3] == 'e' || s[3] == 'E')
  }

  /** A flag is set exactly when its setting spells "true" in any mixture of
      upper and lower case. */
  lemma SettingIsTrueSpelling(setting: Option<string>)
    ensures SettingIsTrue(setting) <==> setting.Some? && SpellsTrue(setting.value)
  {
    if setting.Some? && |setting.value| == 4 {
      var s := setting.value;
      assert ToUpperAscii('T') == 'T' && ToUpperAscii('r') == 'R' && ToUpperAscii('u') == 'U' && ToUpperAscii('e') == 'E';
      if EqualsIgnoreCase(s, "True") {
        assert ToUpperAscii(s[0]) == 'T' && ToUpperAscii(s[1]) == 'R';
        assert ToUpperAscii(s[2]) == 'U' && ToUpperAscii(s[3]) == 'E';
      }
    }
  }

  /** `IgnoreCertificationError`: false for a null setting. */
  function IgnoreCertificationError(setting: Option<string>): (r: bool)
    ensures r <==> setting.Some? && SpellsTrue(setting.value)
  {
    SettingIsTrueSpelling(setting);
    SettingIsTrue(setting)
  }

  /** `ChangeCurrentDirectoryToExeFilePath`: false for a null setting. */
  function ChangeCurrentDirectoryToExeFilePath(setting: Option<string>): (r: bool)
    ensures r <==> setting.Some? && SpellsTrue(setting.value)
  {
    SettingIsTrueSpelling(setting);
    SettingIsTrue(setting)
  }

  // ---------------------------------------------------------------------
  // The site-list regular expression
  //   (?<verb>DELETE|GET|HEAD|OPTIONS|POST|PUT|TRACE)\s+(?<url>.+)
  // unanchored and case-insensitive.
  // ---------------------------------------------------------------------

  /** The alternatives of the `verb` group, in the order they are tried. */
  const SiteListVerbs: seq<string> := ["DELETE", "GET", "HEAD", "OPTIONS", "POST", "PUT", "TRACE"]

  /** A successful match: where it starts, which alternative matched, and
      the text of the `verb` and `url` groups. */
  datatype VerbMatch = VerbMatch(start: nat, alternative: nat, verb: string, url: string)

  /** Alternative `b` matches the text at position `i`, ignoring case. */
  predicate VerbAt(s: string, i: nat, b: nat)
    requires b < |SiteListVerbs|
  {
    i + |SiteListVerbs[b]| <= |s| && EqualsIgnoreCase(s[i..i + |SiteListVerbs[b]|], SiteListVerbs[b])
  }

  /** The whole pattern matches at `i` through alternative `b`: the verb, then
      `\s+`, then at least one character that `.` accepts. */
  predicate MatchesAt(s: string, i: nat, b: nat)
    requires b < |SiteListVerbs|
  {
    VerbAt(s, i, b) && GreedySplit(s[i + |SiteListVerbs[b]|..], IsWhiteSpace, 1).Some?
  }

  /** The groups of the match at `i` through `b`: the verb as written in the
      line, and the url that the greedy `.+` takes after the longest
      admissible white-space run. */
  function GroupsAt(s: string, i: nat, b: nat): (m: VerbMatch)
    requires b < |SiteListVerbs| && MatchesAt(s, i, b)
  {
    var v := |SiteListVerbs[b]|;
    var k := GreedySplit(s[i + v..], IsWhiteSpace, 1).value;
    VerbMatch(i, b, s[i..i + v], TakeLine(s[i + v + k..]))
  }

  /** The alternation at position `i`, from alternative `a` on: the first
      alternative with which the whole pattern matches. */
  function AlternativesAt(s: string, i: nat, a: nat): (r: Option<VerbMatch>)
    requires a <= |SiteListVerbs|
    ensures r.None? <==> forall b :: a <= b < |SiteListVerbs| ==> !MatchesAt(s, i, b)
    ensures r.Some? ==>
      && a <= r.value.alternative < |SiteListVerbs|
      && MatchesAt(s, i, r.value.alternative) && r.value == GroupsAt(s, i, r.value.alternative)
      && forall b :: a <= b < r.value.alternative ==> !MatchesAt(s, i, b)
    decreases |SiteListVerbs| - a
  {
    if a == |SiteListVerbs| then None
    else if MatchesAt(s, i, a) then Some(GroupsAt(s, i, a))
    else AlternativesAt(s, i, a + 1)
  }

  /** The scan for the leftmost position, from `i` on, where the pattern matches. */
  function MatchFrom(s: string, i: nat): (r: Option<VerbMatch>)
    requires i <= |s|
    ensures r.None? <==> forall j, b :: i <= j <= |s| && 0 <= b < |SiteListVerbs| ==> !MatchesAt(s, j, b)
    ensures r.Some? ==>
      && i <= r.value.start <= |s| && r.value.alternative < |SiteListVerbs|
      && MatchesAt(s, r.value.start, r.value.alternative)
      && r.value == GroupsAt(s, r.value.start, r.value.alternative)
      && (forall j, b :: i <= j < r.value.start && 0 <= b < |SiteListVerbs| ==> !MatchesAt(s, j, b))
      && (forall b :: 0 <= b < r.value.alternative ==> !MatchesAt(s, r.value.start, b))
    decreases |s| - i
  {
    var here := AlternativesAt(s, i, 0);
    if here.Some? then here
    else if i == |s| then None
    else MatchFrom(s, i + 1)
  }

  /** `SiteListRegex.Match(line)`. */
  function SiteListMatch(line: string): Option<VerbMatch>
  {
    MatchFrom(line, 0)
  }

  /** The `switch` on `verb.ToUpperInvariant().Trim()`; None is its
      `default` case ("Unsupported verb"). */
  function MethodOfVerb(verb: string): Option<HttpMethod>
  {
    match verb
    case "DELETE" => Some(Delete)
    case "GET" => Some(Get)
    case "HEAD" => Some(Head)
    case "OPTIONS" => Some(Options)
    case "POST" => Some(Post)
    case "PUT" => Some(Put)
    case "TRACE" => Some(Trace)
    case _ => None
  }

  /** The method each alternative of the regular expression names. */
  function AlternativeMethod(b: nat): HttpMethod
    requires b < |SiteListVerbs|
  {
    [Delete, Get, Head, Options, Post, Put, Trace][b]
  }

  /** Text equal, ignoring case, to an upper-case ASCII word upper-cases to it. */
  lemma ToUpperOfMatchedVerb(text: string, b: nat)
    requires b < |SiteListVerbs| && EqualsIgnoreCase(text, SiteListVerbs[b])
    ensures ToUpper(text) == SiteListVerbs[b]
  {
    var v := SiteListVerbs[b];
    forall i | 0 <= i < |v| ensures ToUpperAscii(v[i]) == v[i] {
      assert 'A' <= v[i] <= 'Z';
    }
  }

  /** Whatever the regular expression matched, the `switch` knows its verb:
      the `default` branch of the source's switch is unreachable. */
  lemma MatchedVerbIsSupported(line: string)
    requires SiteListMatch(line).Some?
    ensures var m := SiteListMatch(line).value;
      m.alternative < |SiteListVerbs|
      && MethodOfVerb(Trim(ToUpper(m.verb))) == Some(AlternativeMethod(m.alternative))
  {
    var m := SiteListMatch(line).value;
    ToUpperOfMatchedVerb(m.verb, m.alternative);
    SwitchKnowsVerb(m.alternative);
  }

  /** Each alternative is its own trimmed text and the switch maps it to the
      method of the same name. */
  lemma SwitchKnowsVerb(b: nat)
    requires b < |SiteListVerbs|
    ensures Trim(SiteListVerbs[b]) == SiteListVerbs[b]
    ensures MethodOfVerb(SiteListVerbs[b]) == Some(AlternativeMethod(b))
    ensures MethodName(AlternativeMethod(b)) == SiteListVerbs[b]
  {
    var v := SiteListVerbs[b];
    assert 'A' <= v[0] <= 'Z' && 'A' <= v[|v| - 1] <= 'Z';
    assert TrimStart(v) == v;
    assert TrimEnd(v) == v;
  }

  // ---------------------------------------------------------------------
  // One line of the site list.
  // ---------------------------------------------------------------------

  /** A method and URI that a line names, before `SiteListItem` checks them. */
  datatype Target = Target(httpMethod: HttpMethod, uri: Uri)

  /** What the loop body does with a line before it constructs the item: None
      where it reaches a `continue`. `tryCreate` is `Uri.TryCreate(_, UriKind.Absolute, _)`. */
  function LineTarget(line: string, tryCreate: string -> Option<Uri>): Option<Target>
  {
    if IsAllWhiteSpace(line) then None
    else if StartsWith(line, "#") then None
    else if StartsWith(line, "https") || StartsWith(line, "http") then
      match tryCreate(line)
      case None => None
      case Some(url) => Some(Target(Get, url))
    else
      match SiteListMatch(line)
      case None => None
      case Some(m) =>
        match MethodOfVerb(Trim(ToUpper(m.verb)))
        case None => None
        case Some(httpMethod) =>
          match tryCreate(m.url)
          case None => None
          case Some(url) => Some(Target(httpMethod, url))
  }

  /** What one line contributes: nothing, an item, or the exception the
      `SiteListItem` constructor throws (which the loop does not catch). */
  datatype LineOutcome = Skip | Emit(item: SiteListItem) | Raise(error: Error)

  function ParseLine(line: string, tryCreate: string -> Option<Uri>): (o: LineOutcome)
    ensures o.Emit? ==> Valid(o.item)
  {
    match LineTarget(line, tryCreate)
    case None => Skip
    case Some(t) =>
      match New(Some(t.httpMethod), Some(t.uri))
      case Success(item) => Emit(item)
      case Failure(e) => Raise(e)
  }

  /** Blank and comment lines never produce an item. */
  lemma BlankAndCommentLinesAreSkipped(line: string, tryCreate: string -> Option<Uri>)
    requires IsAllWhiteSpace(line) || StartsWith(line, "#")
    ensures ParseLine(line, tryCreate) == Skip
  {
  }

  /** The `https` test is subsumed by the `http` test: the disjunction is the
      `http` test alone, for every line. */
  lemma HttpsPrefixIsSubsumed(line: string)
    ensures StartsWith(line, "https") || StartsWith(line, "http") <==> StartsWith(line, "http")
  {
    if StartsWith(line, "https") {
      assert line[..4] == line[..5][..4];
    }
  }

  /** A line starting with `http` (case-sensitively) is a bare URI requested
      with GET. */
  lemma HttpLineIsBareUri(line: string, tryCreate: string -> Option<Uri>)
    requires StartsWith(line, "http")
    ensures LineTarget(line, tryCreate) ==
      if tryCreate(line).Some? then Some(Target(Get, tryCreate(line).value)) else None
  {
    assert line[0] == 'h';
  }

  /** Any other line yields a target exactly when the regular expression
      matches and its url parses; the method is the one the matched
      alternative names and the URI is the parsed url group. */
  lemma VerbLineTarget(line: string, tryCreate: string -> Option<Uri>)
    requires !IsAllWhiteSpace(line) && !StartsWith(line, "#") && !StartsWith(line, "http")
    ensures !StartsWith(line, "https")
    ensures LineTarget(line, tryCreate).Some? <==>
      SiteListMatch(line).Some? && tryCreate(SiteListMatch(line).value.url).Some?
    ensures LineTarget(line, tryCreate).Some? ==>
      var m := SiteListMatch(line).value;
      m.alternative < |SiteListVerbs|
      && LineTarget(line, tryCreate) == Some(Target(AlternativeMethod(m.alternative), tryCreate(m.url).value))
  {
    if SiteListMatch(line).Some? {
      MatchedVerbIsSupported(line);
    }
  }

  // ---------------------------------------------------------------------
  // The loop over the lines.
  // ---------------------------------------------------------------------

  /** One turn of the loop: an exception already thrown stays thrown;
      otherwise the line's outcome is added. */
  function Step(acc: Result<seq<SiteListItem>, Error>, line: string, tryCreate: string -> Option<Uri>)
    : Result<seq<SiteListItem>, Error>
  {
    match acc
    case Failure(_) => acc
    case Success(items) =>
      match ParseLine(line, tryCreate)
      case Skip => acc
      case Emit(item) => Success(items + [item])
      case Raise(e) => Failure(e)
  }

  function Fold(acc: Result<seq<SiteListItem>, Error>, lines: seq<string>, tryCreate: string -> Option<Uri>)
    : Result<seq<SiteListItem>, Error>
    decreases |lines|
  {
    if |lines| == 0 then acc else Fold(Step(acc, lines[0], tryCreate), lines[1..], tryCreate)
  }

  /** The result of the loop on `lines`. */
  function SiteList(lines: seq<string>, tryCreate: string -> Option<Uri>): Result<seq<SiteListItem>, Error>
  {
    Fold(Success([]), lines, tryCreate)
  }

  /** `GetSiteListFromSiteListFilePath`. `fileLines` is None when the file
      does not exist or cannot be read. */
  method GetSiteListFromSiteListFilePath(fileLines: Option<seq<string>>, tryCreate: string -> Option<Uri>)
    returns (r: Result<seq<SiteListItem>, Error>)
    ensures fileLines.None? ==> r == Success([])
    ensures fileLines.Some? ==> r == SiteList(fileLines.value, tryCreate)
  {
    var items: seq<SiteListItem> := [];
    if fileLines.None? || |fileLines.value| < 1 {
      return Success(items);
    }
    var lines := fileLines.value;
    var i := 0;
    while i < |lines|
      invariant 0 <= i <= |lines|
      invariant Fold(Success(items), lines[i..], tryCreate) == SiteList(lines, tryCreate)
    {
      var eachLine := lines[i];
      assert lines[i..][1..] == lines[i + 1..];
      i := i + 1;
      if IsAllWhiteSpace(eachLine) {
        continue;
      }
      if StartsWith(eachLine, "#") {
        continue;
      }
      var httpMethod: HttpMethod;
      var url: Uri;
      if StartsWith(eachLine, "https") || StartsWith(eachLine, "http") {
        httpMethod := Get;
        var parsed := tryCreate(eachLine);
        if parsed.None? {
          continue;
        }
        url := parsed.value;
      } else {
        var m := SiteListMatch(eachLine);
        if m.None? {
          continue;
        }
        var verb := MethodOfVerb(Trim(ToUpper(m.value.verb)));
        if verb.None? {
          continue;
        }
        httpMethod := verb.value;
        var parsed := tryCreate(m.value.url);
        if parsed.None? {
          continue;
        }
        url := parsed.value;
      }
      var item := New(Some(httpMethod), Some(url));
      if item.Failure? {
        FoldKeepsFailure(item.error, lines[i..], tryCreate);
        return Failure(item.error);
      }
      items := items + [item.value];
    }
    r := Success(items);
  }

  /** Once the constructor has thrown, no later line changes the result. */
  lemma {:induction false} FoldKeepsFailure(e: Error, lines: seq<string>, tryCreate: string -> Option<Uri>)
    ensures Fold(Failure(e), lines, tryCreate) == Failure(e)
    decreases |lines|
  {
    if |lines| > 0 {
      FoldKeepsFailure(e, lines[1..], tryCreate);
    }
  }

  /** Running the loop over `a + b` is running it over `a`, then over `b`. */
  lemma {:induction false} FoldAppend(acc: Result<seq<SiteListItem>, Error>, a: seq<string>, b: seq<string>,
                                      tryCreate: string -> Option<Uri>)
    ensures Fold(acc, a + b, tryCreate) == Fold(Fold(acc, a, tryCreate), b, tryCreate)
    decreases |a|
  {
    if |a| > 0 {
      assert (a + b)[0] == a[0] && (a + b)[1..] == a[1..] + b;
      FoldAppend(Step(acc, a[0], tryCreate), a[1..], b, tryCreate);
    } else {
      assert a + b == b;
    }
  }

  // A reference definition of the site list, line by line.

  /** The items of the lines that produce one, in line order. */
  function Emitted(lines: seq<string>, tryCreate: string -> Option<Uri>): (items: seq<SiteListItem>)
    ensures |items| <= |lines|
    ensures forall k :: 0 <= k < |items| ==> Valid(items[k])
  {
    if |lines| == 0 then []
    else
      var rest := Emitted(lines[1..], tryCreate);
      match ParseLine(lines[0], tryCreate)
      case Emit(item) => [item] + rest
      case _ => rest
  }

  /** The exception of the first line whose item the constructor rejects. */
  function FirstRaise(lines: seq<string>, tryCreate: string -> Option<Uri>): Option<Error>
  {
    if |lines| == 0 then None
    else
      match ParseLine(lines[0], tryCreate)
      case Raise(e) => Some(e)
      case _ => FirstRaise(lines[1..], tryCreate)
  }

  lemma {:induction false} FirstRaiseIsFirst(lines: seq<string>, tryCreate: string -> Option<Uri>)
    ensures FirstRaise(lines, tryCreate).None? <==>
      forall j :: 0 <= j < |lines| ==> !ParseLine(lines[j], tryCreate).Raise?
    ensures FirstRaise(lines, tryCreate).Some? ==>
      exists j :: 0 <= j < |lines| && ParseLine(lines[j], tryCreate) == Raise(FirstRaise(lines, tryCreate).value)
        && forall j' :: 0 <= j' < j ==> !ParseLine(lines[j'], tryCreate).Raise?
    decreases |lines|
  {
    if |lines| > 0 {
      FirstRaiseIsFirst(lines[1..], tryCreate);
      if !ParseLine(lines[0], tryCreate).Raise? {
        assert forall j :: 1 <= j < |lines| ==> lines[j] == lines[1..][j - 1];
        if FirstRaise(lines, tryCreate).Some? {
          var j :| 0 <= j < |lines[1..]| && ParseLine(lines[1..][j], tryCreate) == Raise(FirstRaise(lines, tryCreate).value)
            && forall j' :: 0 <= j' < j ==> !ParseLine(lines[1..][j'], tryCreate).Raise?;
          assert forall j' :: 0 <= j' < j + 1 ==> !ParseLine(lines[j'], tryCreate).Raise? by {
            forall j' | 0 <= j' < j + 1 ensures !ParseLine(lines[j'], tryCreate).Raise? {
              if j' > 0 { assert lines[j'] == lines[1..][j' - 1]; }
            }
          }
          assert lines[j + 1] == lines[1..][j];
        }
      }
    }
  }

  lemma {:induction false} FoldMatchesReference(items: seq<SiteListItem>, lines: seq<string>,
                                                tryCreate: string -> Option<Uri>)
    ensures Fold(Success(items), lines, tryCreate) ==
      match FirstRaise(lines, tryCreate)
      case None => Success(items + Emitted(lines, tryCreate))
      case Some(e) => Failure(e)
    decreases |lines|
  {
    if |lines| > 0 {
      match ParseLine(lines[0], tryCreate)
      case Skip =>
        FoldMatchesReference(items, lines[1..], tryCreate);
      case Emit(item) =>
        FoldMatchesReference(items + [item], lines[1..], tryCreate);
        assert items + [item] + Emitted(lines[1..], tryCreate) == items + ([item] + Emitted(lines[1..], tryCreate));
      case Raise(e) =>
        FoldKeepsFailure(e, lines[1..], tryCreate);
    } else {
      assert items + [] == items;
    }
  }

  /** The site list is the items of the lines that produce one, in line
      order and at most one per line, unless some line's item is rejected by
      the constructor: then the whole parse throws that first line's exception. */
  lemma SiteListIsEmittedItems(lines: seq<string>, tryCreate: string -> Option<Uri>)
    ensures SiteList(lines, tryCreate) ==
      match FirstRaise(lines, tryCreate)
      case None => Success(Emitted(lines, tryCreate))
      case Some(e) => Failure(e)
    ensures SiteList(lines, tryCreate).Success? <==>
      forall j :: 0 <= j < |lines| ==> !ParseLine(lines[j], tryCreate).Raise?
    ensures SiteList(lines, tryCreate).Success? ==>
      |SiteList(lines, tryCreate).value| <= |lines|
      && forall k :: 0 <= k < |SiteList(lines, tryCreate).value| ==> Valid(SiteList(lines, tryCreate).value[k])
  {
    FoldMatchesReference([], lines, tryCreate);
    FirstRaiseIsFirst(lines, tryCreate);
    assert [] + Emitted(lines, tryCreate) == Emitted(lines, tryCreate);
  }

  /** A line that produces nothing does not affect what the other lines produce. */
  lemma SkippedLineIsInvisible(before: seq<string>, line: string, after: seq<string>,
                               tryCreate: string -> Option<Uri>)
    requires ParseLine(line, tryCreate) == Skip
    ensures SiteList(before + [line] + after, tryCreate) == SiteList(before + after, tryCreate)
  {
    FoldAppend(Success([]), before + [line], after, tryCreate);
    FoldAppend(Success([]), before, [line], tryCreate);
    FoldAppend(Success([]), before, after, tryCreate);
    var mid := Fold(Success([]), before, tryCreate);
    assert Fold(mid, [line], tryCreate) == Fold(Step(mid, line, tryCreate), [], tryCreate);
  }

  /** If the URI parser only ever returns absolute URIs, as `UriKind.Absolute`
      promises, the only exception the parse can throw is the one for an
      unsupported scheme. */
  lemma OnlySchemeCanAbortParse(lines: seq<string>, tryCreate: string -> Option<Uri>)
    requires forall u :: tryCreate(u).Some? ==> tryCreate(u).value.isAbsolute
    ensures SiteList(lines, tryCreate).Failure? ==>
      SiteList(lines, tryCreate).error == NotSupported("Only HTTPS and HTTP uri supported.")
  {
    SiteListIsEmittedItems(lines, tryCreate);
    FirstRaiseIsFirst(lines, tryCreate);
  }

  /** The alternatives are upper-case words of at least three letters, and no
      two agree on their first two letters. */
  lemma VerbsAreDistinct()
    ensures forall b :: 0 <= b < |SiteListVerbs| ==> |SiteListVerbs[b]| >= 3
    ensures forall b, i :: 0 <= b < |SiteListVerbs| && 0 <= i < |SiteListVerbs[b]| ==>
      'A' <= SiteListVerbs[b][i] <= 'Z'
    ensures forall a, b :: 0 <= a < b < |SiteListVerbs| ==>
      SiteListVerbs[a][0] != SiteListVerbs[b][0] || SiteListVerbs[a][1] != SiteListVerbs[b][1]
  {
  }

  /** A line that starts, in any case, with alternative `b` is not blank, not a
      comment, not a bare URI, and no earlier alternative matches at its start. */
  lemma LineStartingWithVerb(line: string, b: nat)
    requires b < |SiteListVerbs| && VerbAt(line, 0, b)
    ensures !IsAllWhiteSpace(line) && !StartsWith(line, "#")
    ensures !StartsWith(line, "http") && !StartsWith(line, "https")
    ensures forall a :: 0 <= a < b ==> !VerbAt(line, 0, a)
  {
    VerbsAreDistinct();
    var v := SiteListVerbs[b];
    assert ToUpperAscii(line[0]) == v[0] && ToUpperAscii(line[1]) == v[1];
    assert !IsWhiteSpace(line[0]);
    forall a | 0 <= a < b ensures !VerbAt(line, 0, a) {
      if VerbAt(line, 0, a) {
        assert false;
      }
    }
  }

  /** `\s+(.+)` splits a white-space run followed by a url that starts with
      something else exactly where the url starts. */
  lemma SplitAtUrl(sep: string, url: string)
    requires |sep| > 0 && IsAllWhiteSpace(sep) && |url| > 0 && !IsWhiteSpace(url[0])
    ensures GreedySplit(sep + url, IsWhiteSpace, 1) == Some(|sep|)
    ensures (sep + url)[|sep|..] == url
  {
    var t := sep + url;
    assert SplitOk(t, IsWhiteSpace, 1, |sep|);
    var k := GreedySplit(t, IsWhiteSpace, 1).value;
    if k > |sep| {
      assert false;
    }
    assert t[|sep|..] == url;
  }

  /** A line without white space is a target only as a bare URI: the prefix
      test is case-sensitive, so `HTTP://a.test` is not one, and the verb form
      needs white space after the verb. */
  lemma LineWithoutWhiteSpace(line: string, tryCreate: string -> Option<Uri>)
    requires forall j :: 0 <= j < |line| ==> !IsWhiteSpace(line[j])
    requires !StartsWith(line, "http")
    ensures LineTarget(line, tryCreate) == None
  {
    forall j, b | 0 <= j <= |line| && 0 <= b < |SiteListVerbs| ensures !MatchesAt(line, j, b) {
      if VerbAt(line, j, b) {
        var t := line[j + |SiteListVerbs[b]|..];
        forall k ensures !SplitOk(t, IsWhiteSpace, 1, k) {
          if 1 <= k < |t| {
            assert t[0] == line[j + |SiteListVerbs[b]|];
          }
        }
      }
    }
  }

  /** A line `<verb><white space><url>`, with the verb in any case, yields that
      verb's method and the parsed url. */
  lemma WellFormedVerbLine(verb: string, sep: string, url: string, b: nat, tryCreate: string -> Option<Uri>)
    requires b < |SiteListVerbs| && EqualsIgnoreCase(verb, SiteListVerbs[b])
    requires |sep| > 0 && IsAllWhiteSpace(sep)
    requires |url| > 0 && !IsWhiteSpace(url[0]) && forall j :: 0 <= j < |url| ==> url[j] != '\n'
    ensures LineTarget(verb + sep + url, tryCreate) ==
      if tryCreate(url).Some? then Some(Target(AlternativeMethod(b), tryCreate(url).value)) else None
  {
    var line := verb + sep + url;
    var v := |SiteListVerbs[b]|;
    assert line[..v] == verb;
    assert line[v..] == sep + url;
    LineStartingWithVerb(line, b);
    SplitAtUrl(sep, url);
    assert line[v + |sep|..] == url;
    assert TakeLine(url) == url;
    assert MatchesAt(line, 0, b);
    var m := SiteListMatch(line).value;
    assert m.start == 0 && m.alternative == b;
    assert m.url == url;
    MatchedVerbIsSupported(line);
  }

  /** `ToString` of an item with a standard method parses back, as a site-list
      line, to the same item, given a URI parser that recognises the item's
      own absolute URI. */
  lemma ToStringParsesBack(item: SiteListItem, b: nat, tryCreate: string -> Option<Uri>)
    requires Valid(item) && b < |SiteListVerbs| && item.httpMethod == AlternativeMethod(b)
    requires var u := item.uri.absoluteUri;
      |u| > 0 && !IsWhiteSpace(u[0]) && forall j :: 0 <= j < |u| ==> u[j] != '\n'
    requires tryCreate(item.uri.absoluteUri) == Some(item.uri)
    ensures ParseLine(ToString(item), tryCreate) == Emit(item)
  {
    SwitchKnowsVerb(b);
    WellFormedVerbLine(SiteListVerbs[b], " ", item.uri.absoluteUri, b, tryCreate);
  }

  /** A bare URI line and a POST line yield their two items, in order; for
      instance `https://a.test` and `POST http://b.test/x`. */
  lemma BareUriThenPostLine(bare: string, url: string, a: Uri, b: Uri, tryCreate: string -> Option<Uri>)
    requires StartsWith(bare, "http") && tryCreate(bare) == Some(a) && IsSupportedUri(a)
    requires |url| > 0 && !IsWhiteSpace(url[0]) && forall j :: 0 <= j < |url| ==> url[j] != '\n'
    requires tryCreate(url) == Some(b) && IsSupportedUri(b)
    ensures SiteList([bare, "POST " + url], tryCreate) == Success([SiteListItem(Get, a), SiteListItem(Post, b)])
  {
    var second := "POST " + url;
    HttpLineIsBareUri(bare, tryCreate);
    assert ParseLine(bare, tryCreate) == Emit(SiteListItem(Get, a));
    assert "POST" + " " + url == second;
    WellFormedVerbLine("POST", " ", url, 4, tryCreate);
    assert ParseLine(second, tryCreate) == Emit(SiteListItem(Post, b));
    SiteListOfTwoLines(bare, second, tryCreate);
    var first, next := SiteListItem(Get, a), SiteListItem(Post, b);
    assert [] + [first] == [first];
    assert [first] + [next] == [first, next];
  }

  /** Running the loop over one line is one step. */
  lemma FoldOne(acc: Result<seq<SiteListItem>, Error>, line: string, tryCreate: string -> Option<Uri>)
    ensures Fold(acc, [line], tryCreate) == Step(acc, line, tryCreate)
  {
    assert [line][1..] == [];
  }

  /** Running the loop over two lines is two steps. */
  lemma SiteListOfTwoLines(first: string, second: string, tryCreate: string -> Option<Uri>)
    ensures SiteList([first, second], tryCreate) ==
      Step(Step(Success([]), first, tryCreate), second, tryCreate)
  {
    assert [first] + [second] == [first, second];
    FoldAppend(Success([]), [first], [second], tryCreate);
    FoldOne(Success([]), first, tryCreate);
    FoldOne(Step(Success([]), first, tryCreate), second, tryCreate);
  }

  /** A first line `GET <url>` whose url parses as an absolute URI of a scheme
      other than http and https (an ftp URI, say) makes the whole parse throw,
      whatever the other lines hold. */
  lemma UnsupportedSchemeAbortsParse(url: string, u: Uri, rest: seq<string>, tryCreate: string -> Option<Uri>)
    requires |url| > 0 && !IsWhiteSpace(url[0]) && forall j :: 0 <= j < |url| ==> url[j] != '\n'
    requires tryCreate(url) == Some(u) && u.isAbsolute && !IsHttpScheme(u.scheme)
    ensures SiteList(["GET" + " " + url] + rest, tryCreate) == Failure(NotSupported("Only HTTPS and HTTP uri supported."))
  {
    WellFormedVerbLine("GET", " ", url, 1, tryCreate);
    assert (["GET" + " " + url] + rest)[1..] == rest;
    FoldKeepsFailure(NotSupported("Only HTTPS and HTTP uri supported."), rest, tryCreate);
  }

  // ---------------------------------------------------------------------
  // Custom headers: keys matching (?<prefix>^header):*(?<header>.+),
  // case-insensitive.
  // ---------------------------------------------------------------------

  const HeaderPrefix: string := "header"

  /** The `header` group of `CustomHeaderPrefixRegex.Match(key)`, or None when
      the key does not match. */
  function HeaderName(key: string): Option<string>
  {
    if |key| >= |HeaderPrefix| && EqualsIgnoreCase(key[..|HeaderPrefix|], HeaderPrefix) then
      var rest := key[|HeaderPrefix|..];
      match GreedySplit(rest, IsColon, 0)
      case Some(k) => Some(TakeLine(rest[k..]))
      case None => None
    else None
  }

  /** A key contributes a header exactly when it starts, in any case, with
      "header" followed by at least one character other than a line feed. The
      key "header" alone contributes nothing. */
  lemma HeaderNameMatchesExactly(key: string)
    ensures HeaderName(key).Some? <==>
      |key| > |HeaderPrefix| && EqualsIgnoreCase(key[..|HeaderPrefix|], HeaderPrefix) && key[|HeaderPrefix|] != '\n'
  {
    if |key| > |HeaderPrefix| && EqualsIgnoreCase(key[..|HeaderPrefix|], HeaderPrefix) {
      var rest := key[|HeaderPrefix|..];
      if key[|HeaderPrefix|] != '\n' {
        assert SplitOk(rest, IsColon, 0, 0);
      } else {
        assert !IsColon(rest[0]);
      }
    }
  }

  /** The header name is what follows the leading colons, when that is a
      non-empty single line not starting with a colon. */
  lemma HeaderNameStripsColons(prefix: string, colons: string, name: string)
    requires EqualsIgnoreCase(prefix, HeaderPrefix)
    requires forall j :: 0 <= j < |colons| ==> colons[j] == ':'
    requires |name| > 0 && name[0] != ':' && forall j :: 0 <= j < |name| ==> name[j] != '\n'
    ensures HeaderName(prefix + colons + name) == Some(name)
  {
    var key := prefix + colons + name;
    assert key[..|HeaderPrefix|] == prefix;
    var rest := key[|HeaderPrefix|..];
    assert rest == colons + name;
    assert SplitOk(rest, IsColon, 0, |colons|);
    var k := GreedySplit(rest, IsColon, 0).value;
    if k > |colons| {
      assert false;
    }
    assert rest[k..] == name;
    assert TakeLine(name) == name;
  }

  /** When nothing but colons follows "header", the greedy `:*` gives one
      colon back to `.+`, and the header name is ":". */
  lemma OnlyColonsGiveColonHeader(prefix: string, colons: string)
    requires EqualsIgnoreCase(prefix, HeaderPrefix)
    requires |colons| > 0 && forall j :: 0 <= j < |colons| ==> colons[j] == ':'
    ensures HeaderName(prefix + colons) == Some(":")
  {
    var key := prefix + colons;
    assert key[..|HeaderPrefix|] == prefix;
    var rest := key[|HeaderPrefix|..];
    assert rest == colons;
    assert SplitOk(rest, IsColon, 0, |colons| - 1);
    var k := GreedySplit(rest, IsColon, 0).value;
    assert k == |colons| - 1;
    assert rest[k..] == ":";
    assert TakeLine(":") == ":";
  }

  /** One custom header: its name and the value of its setting (None for a
      null value). */
  datatype Header = Header(name: string, value: Option<string>)

  /** The headers the loop collects from `keys`, in key order. */
  function CustomHeaders(keys: seq<string>, valueOf: string -> Option<string>): (headers: seq<Header>)
    ensures |headers| <= |keys|
  {
    if |keys| == 0 then []
    else
      var rest := CustomHeaders(keys[1..], valueOf);
      match HeaderName(keys[0])
      case Some(name) => [Header(name, valueOf(keys[0]))] + rest
      case None => rest
  }

  /** The headers are exactly those of the matching keys: each one is named by
      a matching key and carries that key's value, and every matching key
      contributes one. */
  lemma {:induction false} CustomHeadersAreTheMatchingKeys(keys: seq<string>, valueOf: string -> Option<string>)
    ensures forall h :: h in CustomHeaders(keys, valueOf) ==>
      exists key :: key in keys && HeaderName(key) == Some(h.name) && h.value == valueOf(key)
    ensures forall key :: key in keys && HeaderName(key).Some? ==>
      Header(HeaderName(key).value, valueOf(key)) in CustomHeaders(keys, valueOf)
  {
    if |keys| > 0 {
      CustomHeadersAreTheMatchingKeys(keys[1..], valueOf);
      assert forall key :: key in keys[1..] ==> key in keys;
      assert forall key :: key in keys ==> key == keys[0] || key in keys[1..];
    }
  }

  /** `GetCustomHeaders`. `allKeys` is `AppSettings.AllKeys` and `valueOf` the
      lookup `AppSettings[key]`. */
  method GetCustomHeaders(allKeys: seq<string>, valueOf: string -> Option<string>) returns (items: seq<Header>)
    ensures items == CustomHeaders(allKeys, valueOf)
  {
    items := [];
    var i := 0;
    while i < |allKeys|
      invariant 0 <= i <= |allKeys|
      invariant items + CustomHeaders(allKeys[i..], valueOf) == CustomHeaders(allKeys, valueOf)
    {
      var eachKey := allKeys[i];
      assert allKeys[i..][1..] == allKeys[i + 1..];
      i := i + 1;
      var m := HeaderName(eachKey);
      if m.None? {
        continue;
      }
      var headerName := m.value;
      var headerValue := valueOf(eachKey);
      items := items + [Header(headerName, headerValue)];
    }
    assert allKeys[i..] == [];
  }

  /** Keys are handled one by one: the headers of `a + b` are those of `a`
      followed by those of `b`. */
  lemma {:induction false} CustomHeadersAppend(a: seq<string>, b: seq<string>, valueOf: string -> Option<string>)
    ensures CustomHeaders(a + b, valueOf) == CustomHeaders(a, valueOf) + CustomHeaders(b, valueOf)
    decreases |a|
  {
    if |a| == 0 {
      assert a + b == b;
    } else {
      assert (a + b)[0] == a[0] && (a + b)[1..] == a[1..] + b;
      CustomHeadersAppend(a[1..], b, valueOf);
    }
  }

  /** A single key contributes its header, with its own value, exactly when it matches. */
  lemma SingleKeyHeaders(key: string, valueOf: string -> Option<string>)
    ensures CustomHeaders([key], valueOf) ==
      if HeaderName(key).Some? then [Header(HeaderName(key).value, valueOf(key))] else []
  {
    assert [key][1..] == [];
  }

  /** The setting `header:X-Api-Key` gives the header `X-Api-Key` with its value. */
  lemma ApiKeyHeaderExample(valueOf: string -> Option<string>)
    ensures CustomHeaders(["header:X-Api-Key"], valueOf) == [Header("X-Api-Key", valueOf("header:X-Api-Key"))]
  {
    assert "header" + ":" + "X-Api-Key" == "header:X-Api-Key";
    HeaderNameStripsColons("header", ":", "X-Api-Key");
    SingleKeyHeaders("header:X-Api-Key", valueOf);
  }
}
