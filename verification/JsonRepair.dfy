/**
  Syntax repair of a planner's JSON reply: two scanners that know strings and escapes, one dropping trailing commas, one
  finding the bracket that closes the object, and the fixes built from them.
 */
module JsonRepair {
  import opened Wrappers

  // ------------------------------------------------------------ scanning

  /** Whether a scan stands inside a string, and behind a backslash in it. */
  datatype Scan = Scan(inString: bool, escaped: bool) {
    function Next(c: char): Scan {
      if inString then
        if escaped then this.(escaped := false)
        else if c == '\\' then this.(escaped := true)
        else if c == '"' then this.(inString := false)
        else this
      else if c == '"' then this.(inString := true)
      else this
    }
  }

  function State(text: string): Scan {
    if text == [] then Scan(false, false) else State(text[..|text| - 1]).Next(text[|text| - 1])
  }

  predicate Opens(c: char) {
    c == '{' || c == '['
  }

  predicate Closes(c: char) {
    c == '}' || c == ']'
  }

  /** Opened minus closed brackets, those in strings not counted. */
  function Depth(text: string): int {
    if text == [] then 0
    else
      var (front, c) := (text[..|text| - 1], text[|text| - 1]);
      if State(front).inString then Depth(front)
      else if Opens(c) then Depth(front) + 1
      else if Closes(c) then Depth(front) - 1
      else Depth(front)
  }

  predicate IsSpace(c: char) {
    c == ' ' || c == '\t' || c == '\n' || c == '\r'
  }

  /** `lstrip` of JSON whitespace. */
  function Stripped(text: string): string {
    if text != [] && IsSpace(text[0]) then Stripped(text[1..]) else text
  }

  // ------------------------------------------------------------ what the scan knows

  /** How many backslashes the text ends in. */
  function Backslashes(text: string): nat {
    if text != [] && text[|text| - 1] == '\\' then Backslashes(text[..|text| - 1]) + 1 else 0
  }

  /** Whether the end of the text lies in a string: each quote starts or ends one, but for those in a string behind an odd
      number of backslashes. */
  predicate InString(text: string) {
    text != [] &&
    var (front, c) := (text[..|text| - 1], text[|text| - 1]);
    if c != '"' then InString(front) else !InString(front) || Backslashes(front) % 2 == 1
  }

  /** The scan is in a string exactly when the text so far ends in one, and behind a backslash that escapes exactly when an odd
      number of them ends it there. */
  lemma {:induction false} StateExactly(text: string)
    ensures State(text).inString <==> InString(text)
    ensures State(text).escaped <==> InString(text) && Backslashes(text) % 2 == 1
  {
    if text != [] { StateExactly(text[..|text| - 1]); }
  }

  /** How many characters outside strings are one of two. */
  function Outside(text: string, a: char, b: char): nat {
    if text == [] then 0
    else
      var (front, c) := (text[..|text| - 1], text[|text| - 1]);
      Outside(front, a, b) + (if !InString(front) && (c == a || c == b) then 1 else 0)
  }

  /** The depth is the number of opening brackets outside strings less that of the closing ones. */
  lemma {:induction false} DepthExactly(text: string)
    ensures Depth(text) == Outside(text, '{', '[') - Outside(text, '}', ']')
  {
    if text != [] {
      var front := text[..|text| - 1];
      DepthExactly(front);
      StateExactly(front);
    }
  }

  /** Only whitespace lies from a up to b. */
  predicate Blank(text: string, a: nat, b: nat)
    requires a <= b <= |text|
  {
    forall k :: a <= k < b ==> text[k] == ' ' || text[k] == '\t' || text[k] == '\n' || text[k] == '\r'
  }

  /** Stripping leaves what starts at the first character that is not whitespace. */
  lemma {:induction false} StrippedFrom(text: string, a: nat, b: nat)
    requires a <= b <= |text| && Blank(text, a, b) && (b < |text| ==> !Blank(text, b, b + 1))
    ensures Stripped(text[a..]) == text[b..]
    decreases b - a
  {
    if a < b {
      StrippedFrom(text, a + 1, b);
      assert text[a..][1..] == text[a + 1..];
    }
  }

  /** The first place from a on that is not whitespace, the end where there is none. */
  function NextInk(text: string, a: nat): (b: nat)
    requires a <= |text|
    ensures a <= b <= |text| && Blank(text, a, b) && (b < |text| ==> !Blank(text, b, b + 1))
    decreases |text| - a
  {
    if a < |text| && Blank(text, a, a + 1) then NextInk(text, a + 1) else a
  }

  // ------------------------------------------------------------ trailing commas

  /** The character at i is a comma outside strings that only whitespace separates from a closing bracket. */
  predicate Trailing(text: string, i: nat)
    requires i < |text|
  {
    var after := Stripped(text[i + 1..]);
    !State(text[..i]).inString && text[i] == ',' && after != [] && Closes(after[0])
  }

  /** The dropped commas are those outside strings before which a closing bracket is next but for whitespace. */
  lemma TrailingExactly(text: string, i: nat)
    requires i < |text|
    ensures Trailing(text, i)
            <==> text[i] == ',' && !InString(text[..i])
                 && exists j :: i < j < |text| && Blank(text, i + 1, j) && (text[j] == '}' || text[j] == ']')
  {
    var b := NextInk(text, i + 1);
    StrippedFrom(text, i + 1, b);
    StateExactly(text[..i]);
    assert forall j :: i < j < |text| && Blank(text, i + 1, j) && (text[j] == '}' || text[j] == ']') ==> j == b;
  }

  /** What is kept of the first n characters. */
  function Kept(text: string, n: nat): string
    requires n <= |text|
  {
    if n == 0 then [] else Kept(text, n - 1) + (if Trailing(text, n - 1) then [] else [text[n - 1]])
  }

  function Cleaned(text: string): string {
    Kept(text, |text|)
  }

  method DropTrailingCommas(text: string) returns (out: string)
    ensures out == Cleaned(text)
  {
    out := "";
    var inString, escaped := false, false;
    for index := 0 to |text|
      invariant Scan(inString, escaped) == State(text[..index])
      invariant out == Kept(text, index)
    {
      var c := text[index];
      assert text[..index + 1][..index] == text[..index];
      if inString {
        out := out + [c];
        if escaped {
          escaped := false;
        } else if c == '\\' {
          escaped := true;
        } else if c == '"' {
          inString := false;
        }
      } else {
        var dropped := false;
        if c == '"' {
          inString := true;
        } else if c == ',' {
          var after := Stripped(text[index + 1..]);
          dropped := after != [] && Closes(after[0]);
        }
        if !dropped {
          out := out + [c];
        }
      }
    }
    assert text[..|text|] == text;
  }

  // ------------------------------------------------------------ the end of the object

  /** The character at i closes the value the text starts with. */
  predicate EndsAt(text: string, i: nat)
    requires i < |text|
  {
    !State(text[..i]).inString && Closes(text[i]) && Depth(text[..i + 1]) == 0
  }

  function EndFrom(text: string, i: nat): (end: Option<nat>)
    requires i <= |text|
    ensures end.Some? ==> i < end.value <= |text|
    decreases |text| - i
  {
    if i == |text| then None else if EndsAt(text, i) then Some(i + 1) else EndFrom(text, i + 1)
  }

  /** The character before the end that is found closes the value. */
  lemma {:induction false} EndFound(text: string, i: nat)
    requires i <= |text| && EndFrom(text, i).Some?
    ensures EndsAt(text, EndFrom(text, i).value - 1)
    decreases |text| - i
  {
    if !EndsAt(text, i) { EndFound(text, i + 1); }
  }

  /** No character before the end that is found closes the value, and none at all where none is found. */
  lemma {:induction false} FirstEnd(text: string, i: nat, k: nat)
    requires i <= |text| && i <= k < (match EndFrom(text, i) case Some(end) => end - 1 case None => |text|)
    ensures !EndsAt(text, k)
    decreases k - i
  {
    if i < k { FirstEnd(text, i + 1, k); }
  }

  /** The character at k is a closing bracket outside strings, with as many of those up to it as of opening ones. */
  predicate ClosedAt(text: string, k: nat)
    requires k < |text|
  {
    && !InString(text[..k]) && (text[k] == '}' || text[k] == ']')
    && Outside(text[..k + 1], '{', '[') == Outside(text[..k + 1], '}', ']')
  }

  /** The end that is found is behind the first such character. */
  lemma EndExactly(text: string, end: nat)
    ensures EndFrom(text, 0) == Some(end) <==>
            0 < end <= |text| && ClosedAt(text, end - 1) && forall k :: 0 <= k < end - 1 ==> !ClosedAt(text, k)
  {
    forall k | 0 <= k < |text| ensures ClosedAt(text, k) <==> EndsAt(text, k) {
      StateExactly(text[..k]);
      DepthExactly(text[..k + 1]);
    }
    if EndFrom(text, 0).Some? {
      EndFound(text, 0);
      forall k | 0 <= k < EndFrom(text, 0).value - 1 ensures !EndsAt(text, k) { FirstEnd(text, 0, k); }
    } else if 0 < end <= |text| {
      FirstEnd(text, 0, end - 1);
    }
  }

  method ObjectEnd(text: string) returns (end: Option<nat>)
    ensures end == EndFrom(text, 0)
    ensures end.Some? ==> EndsAt(text, end.value - 1)
    ensures forall k :: 0 <= k < (match end case Some(e) => e - 1 case None => |text|) ==> !EndsAt(text, k)
  {
    var depth := 0;
    var inString, escaped := false, false;
    for index := 0 to |text|
      invariant Scan(inString, escaped) == State(text[..index])
      invariant depth == Depth(text[..index])
      invariant EndFrom(text, 0) == EndFrom(text, index)
    {
      var c := text[index];
      assert text[..index + 1][..index] == text[..index];
      if inString {
        if escaped {
          escaped := false;
        } else if c == '\\' {
          escaped := true;
        } else if c == '"' {
          inString := false;
        }
      } else if c == '"' {
        inString := true;
      } else if Opens(c) {
        depth := depth + 1;
      } else if Closes(c) {
        depth := depth - 1;
        if depth == 0 {
          EndFound(text, 0);
          forall k | 0 <= k < index ensures !EndsAt(text, k) { FirstEnd(text, 0, k); }
          return Some(index + 1);
        }
      }
    }
    forall k | 0 <= k < |text| ensures !EndsAt(text, k) { FirstEnd(text, 0, k); }
    return None;
  }

  // ------------------------------------------------------------ the two scanners agree

  lemma ScanSnoc(text: string, c: char)
    ensures State(text + [c]) == State(text).Next(c)
    ensures Depth(text + [c]) == Depth(text) + (if State(text).inString then 0 else if Opens(c) then 1 else if Closes(c) then -1 else 0)
  {
    assert (text + [c])[..|text|] == text;
  }

  /** A comma outside strings moves neither scan; any other step moves two scans in the same state alike. */
  lemma ScansStayAlike(seen: string, kept: string, c: char)
    requires State(kept) == State(seen) && Depth(kept) == Depth(seen)
    ensures State(kept + [c]) == State(seen + [c]) && Depth(kept + [c]) == Depth(seen + [c])
    ensures c == ',' && !State(seen).inString ==> State(kept) == State(seen + [c]) && Depth(kept) == Depth(seen + [c])
  {
    ScanSnoc(seen, c);
    ScanSnoc(kept, c);
  }

  /** Dropping commas outside strings moves neither scan. */
  lemma {:induction false} KeptScansAlike(text: string, n: nat)
    requires n <= |text|
    ensures State(Kept(text, n)) == State(text[..n])
    ensures Depth(Kept(text, n)) == Depth(text[..n])
  {
    if n > 0 {
      var (seen, kept, c) := (text[..n - 1], Kept(text, n - 1), text[n - 1]);
      assert text[..n] == seen + [c];
      assert Kept(text, n) == if Trailing(text, n - 1) then kept else kept + [c];
      assert State(kept) == State(seen) && Depth(kept) == Depth(seen) by { KeptScansAlike(text, n - 1); }
      ScansStayAlike(seen, kept, c);
    }
  }

  lemma {:induction false} KeptIsPrefix(text: string, n: nat, m: nat)
    requires n <= m <= |text|
    ensures Kept(text, n) <= Kept(text, m)
  {
    if n < m { KeptIsPrefix(text, n, m - 1); }
  }

  /** A kept character stands in the cleaned text right behind what is kept before it, and ends the object there exactly
      when it ends it in the text. */
  lemma KeptEndsAlike(text: string, i: nat)
    requires i < |text| && !Trailing(text, i)
    ensures var at := |Kept(text, i)|;
            at < |Cleaned(text)| && Cleaned(text)[at] == text[i] && (EndsAt(Cleaned(text), at) <==> EndsAt(text, i))
  {
    var (clean, at) := (Cleaned(text), |Kept(text, i)|);
    KeptIsPrefix(text, i + 1, |text|);
    assert Kept(text, i + 1) == Kept(text, i) + [text[i]];
    assert clean[..at] == Kept(text, i) && clean[..at + 1] == Kept(text, i + 1);
    KeptScansAlike(text, i);
    KeptScansAlike(text, i + 1);
  }

  /** A dropped comma ends no object. */
  lemma PastTrailing(text: string, i: nat)
    requires i < |text| && Trailing(text, i)
    ensures Kept(text, i + 1) == Kept(text, i) && EndFrom(text, i) == EndFrom(text, i + 1)
  {
  }

  lemma PastKept(text: string, i: nat)
    requires i < |text| && !Trailing(text, i)
    ensures |Kept(text, i + 1)| == |Kept(text, i)| + 1 <= |Cleaned(text)|
    ensures EndFrom(text, i) == if EndsAt(text, i) then Some(i + 1) else EndFrom(text, i + 1)
    ensures var (clean, at) := (Cleaned(text), |Kept(text, i)|);
            EndFrom(clean, at) == if EndsAt(text, i) then Some(at + 1) else EndFrom(clean, at + 1)
  {
    KeptEndsAlike(text, i);
  }

  lemma {:induction false} EndOfCleaned(text: string, i: nat)
    requires i <= |text|
    ensures |Kept(text, i)| <= |Cleaned(text)|
    ensures EndFrom(Cleaned(text), |Kept(text, i)|) ==
            match EndFrom(text, i) case Some(end) => Some(|Kept(text, end)|) case None => None
    decreases |text| - i
  {
    assert |Kept(text, i)| <= |Cleaned(text)| by { KeptIsPrefix(text, i, |text|); }
    if i < |text| {
      if Trailing(text, i) {
        PastTrailing(text, i);
        EndOfCleaned(text, i + 1);
      } else {
        PastKept(text, i);
        if !EndsAt(text, i) { EndOfCleaned(text, i + 1); }
      }
    }
  }

  /** Cleaning and then matching finds the image of the bracket that matching finds, and none where matching finds none. */
  lemma CleanThenMatch(text: string)
    ensures EndFrom(Cleaned(text), 0) == match EndFrom(text, 0) case Some(end) => Some(|Kept(text, end)|) case None => None
    ensures EndFrom(text, 0).Some? ==> Kept(text, EndFrom(text, 0).value) <= Cleaned(text)
  {
    EndOfCleaned(text, 0);
    if EndFrom(text, 0).Some? { KeptIsPrefix(text, EndFrom(text, 0).value, |text|); }
  }

  // ------------------------------------------------------------ fixes

  datatype Fix = CommasRemoved(text: string) | Reopened(text: string) | Cut(text: string) | NoFix

  /** Text with the bracket that ends at `end` taken out, and a comma put in its place unless one follows. */
  function WithoutBracket(text: string, end: nat, commaFollows: bool): (t: string)
    requires 0 < end <= |text|
  {
    text[..end - 1] + (if commaFollows then [] else [',']) + text[end..]
  }

  /** One fix to text that does not parse. */
  function FixJson(text: string): Fix {
    if Cleaned(text) != text then CommasRemoved(Cleaned(text))
    else
      match EndFrom(text, 0)
      case None => NoFix
      case Some(end) =>
        if end == |text| then NoFix
        else
          var rest := text[end..];
          var after := Stripped(rest);
          if after != [] && (after[0] == ',' || after[0] == '"') then
            Reopened(WithoutBracket(text, end, after[0] == ','))
          else Cut(text[..end])
  }

  /** Text is fixed by dropping its commas where there are any to drop. Else, if its object is closed with text behind, the
      object is reopened when that text starts with a comma or a quote, a comma taking the bracket's place before a quote, and
      the text is dropped when it starts with anything else. And there is no other fix. */
  lemma FixExactly(text: string)
    ensures Cleaned(text) != text ==> FixJson(text) == CommasRemoved(Cleaned(text))
    ensures Cleaned(text) == text ==>
              match EndFrom(text, 0)
              case None => FixJson(text) == NoFix
              case Some(end) =>
                if end == |text| then FixJson(text) == NoFix
                else
                  var next := NextInk(text, end);
                  if next < |text| && text[next] == ',' then FixJson(text) == Reopened(text[..end - 1] + text[end..])
                  else if next < |text| && text[next] == '"' then FixJson(text) == Reopened(text[..end - 1] + "," + text[end..])
                  else FixJson(text) == Cut(text[..end])
  {
    match EndFrom(text, 0)
    case None =>
    case Some(end) =>
      var next := NextInk(text, end);
      StrippedFrom(text, end, next);
      assert text[..end - 1] + [] + text[end..] == text[..end - 1] + text[end..];
      assert "," == [','];
  }

  lemma {:induction false} EndFromPrefix(text: string, other: string, n: nat, i: nat)
    requires i <= n <= |text| && n <= |other| && text[..n] == other[..n]
    requires EndFrom(text, i).Some? ==> EndFrom(text, i).value > n
    ensures EndFrom(other, i) == EndFrom(other, n)
    decreases n - i
  {
    if i < n {
      assert text[..i] == text[..n][..i] == other[..i] && text[..i + 1] == text[..n][..i + 1] == other[..i + 1];
      assert text[i] == text[..n][i] == other[i];
      assert !EndsAt(text, i) && !EndsAt(other, i);
      EndFromPrefix(text, other, n, i + 1);
    }
  }

  /** Text cut behind the bracket that closes its object is closed by its own last bracket. */
  lemma CutEnds(text: string, end: nat)
    requires EndFrom(text, 0) == Some(end)
    ensures EndFrom(text[..end], 0) == Some(end)
  {
    var t := text[..end];
    assert t[..end - 1] == text[..end - 1] && t[..end] == text[..end];
    EndFromPrefix(text, t, end - 1, 0);
    EndFound(text, 0);
    assert EndsAt(t, end - 1);
  }

  /** Text without its early bracket closes only behind the place the bracket had. */
  lemma ReopenedEnds(text: string, end: nat, commaFollows: bool)
    requires EndFrom(text, 0) == Some(end) && (commaFollows ==> end < |text| && !Closes(text[end]))
    ensures var t := WithoutBracket(text, end, commaFollows);
            EndFrom(t, 0).Some? ==> EndFrom(t, 0).value > end
  {
    var t := WithoutBracket(text, end, commaFollows);
    InPlaceOfBracket(text, end, commaFollows);
    LaterThan(text, t, end);
  }

  /** Texts that agree up to the bracket: where the other does not close there, it closes only behind. */
  lemma LaterThan(text: string, t: string, end: nat)
    requires EndFrom(text, 0) == Some(end) && |t| >= end && t[..end - 1] == text[..end - 1] && !Closes(t[end - 1])
    ensures EndFrom(t, 0).Some? ==> EndFrom(t, 0).value > end
  {
    EndFromPrefix(text, t, end - 1, 0);
  }

  lemma InPlaceOfBracket(text: string, end: nat, commaFollows: bool)
    requires 0 < end <= |text| && (commaFollows ==> end < |text| && !Closes(text[end]))
    ensures var t := WithoutBracket(text, end, commaFollows);
            |t| >= end && t[..end - 1] == text[..end - 1] && !Closes(t[end - 1])
  {
    var t := WithoutBracket(text, end, commaFollows);
    assert t[end - 1] == if commaFollows then text[end] else ',';
  }

  /** Removing commas shortens the text. */
  lemma CommaFixShortens(text: string)
    requires FixJson(text).CommasRemoved?
    ensures |FixJson(text).text| < |text|
  {
    KeptShortens(text, |text|);
    assert text[..|text|] == text;
  }

  /** Reopening removes the bracket that closed the object early: nothing closes it up to that place any more. */
  lemma ReopenFixDefers(text: string, end: nat)
    requires FixJson(text).Reopened? && EndFrom(text, 0) == Some(end)
    ensures var t := FixJson(text).text;
            (t == WithoutBracket(text, end, true) || t == WithoutBracket(text, end, false))
            && |t| <= |text| && (EndFrom(t, 0).Some? ==> EndFrom(t, 0).value > end)
  {
    assert text[end] == text[end..][0];
    ReopenedEnds(text, end, Stripped(text[end..])[0] == ',');
  }

  /** Cutting leaves a proper prefix that its own last bracket closes. */
  lemma CutFixCloses(text: string)
    requires FixJson(text).Cut?
    ensures var t := FixJson(text).text;
            |t| < |text| && t == text[..|t|] && EndFrom(t, 0) == Some(|t|)
  {
    CutEnds(text, EndFrom(text, 0).value);
  }

  // ------------------------------------------------------------ repeating the fixes

  const PARSE_ATTEMPTS := 3

  /** How much text follows the bracket that closes the object. */
  function Behind(text: string): nat {
    match EndFrom(text, 0)
    case None => 0
    case Some(end) => |text| - end
  }

  /** Every fix shortens the text or, at the same length, leaves less of it behind the bracket that closes the object. */
  lemma FixProgress(text: string)
    requires !FixJson(text).NoFix?
    ensures var t := FixJson(text).text; |t| < |text| || (|t| == |text| && Behind(t) < Behind(text))
  {
    match FixJson(text)
    case CommasRemoved(_) => CommaFixShortens(text);
    case Reopened(_) => ReopenFixDefers(text, EndFrom(text, 0).value);
    case Cut(_) => CutFixCloses(text);
    case NoFix =>
  }

  predicate FixesTo(text: string, next: string) {
    !FixJson(text).NoFix? && next == FixJson(text).text
  }

  /** All the texts that fix after fix leads to, without any cap: they come to an end for every text. */
  function Fixes(text: string): (texts: seq<string>)
    ensures texts != [] && texts[0] == text && FixJson(texts[|texts| - 1]).NoFix?
    ensures forall i :: 0 <= i < |texts| - 1 ==> FixesTo(texts[i], texts[i + 1])
    decreases |text|, Behind(text)
  {
    if FixJson(text).NoFix? then [text]
    else
      FixProgress(text);
      [text] + Fixes(FixJson(text).text)
  }

  /** What parsing a reply ends with: the text that parsed and the number of fixes it took, or the text given up on. */
  datatype Parsed = Parsed(text: string, fixes: nat) | GaveUp(text: string)

  /** Fixes text until it parses, at most three times; `parses` is the JSON parser's verdict. */
  method ParseObject(text: string, parses: string -> bool) returns (r: Parsed)
    ensures r.Parsed? ==> r.fixes <= 3 && r.fixes < |Fixes(text)| && r.text == Fixes(text)[r.fixes] && parses(r.text)
                          && forall i :: 0 <= i < r.fixes ==> !parses(Fixes(text)[i])
    ensures r.GaveUp? ==> forall i :: 0 <= i <= 3 && i < |Fixes(text)| ==> !parses(Fixes(text)[i])
    ensures r.GaveUp? ==> r.text == Fixes(text)[if 3 < |Fixes(text)| then 3 else |Fixes(text)| - 1]
  {
    var current := text;
    var fixes := 0;
    while !parses(current)
      invariant fixes <= PARSE_ATTEMPTS && fixes < |Fixes(text)| && current == Fixes(text)[fixes]
      invariant forall i :: 0 <= i < fixes ==> !parses(Fixes(text)[i])
      decreases PARSE_ATTEMPTS - fixes
    {
      var fix := FixJson(current);
      if fix.NoFix? || fixes >= PARSE_ATTEMPTS {
        LastFix(text, fixes);
        return GaveUp(current);
      }
      LastFix(text, fixes);
      current := fix.text;
      fixes := fixes + 1;
    }
    return Parsed(current, fixes);
  }

  /** Only the last of the texts has no fix. */
  lemma LastFix(text: string, i: nat)
    requires i < |Fixes(text)|
    ensures FixJson(Fixes(text)[i]).NoFix? <==> i == |Fixes(text)| - 1
  {
    if i < |Fixes(text)| - 1 { assert FixesTo(Fixes(text)[i], Fixes(text)[i + 1]); }
  }

  lemma {:induction false} KeptShortens(text: string, n: nat)
    requires n <= |text|
    ensures |Kept(text, n)| <= n
    ensures |Kept(text, n)| == n ==> Kept(text, n) == text[..n]
  {
    if n > 0 { KeptShortens(text, n - 1); }
  }
}
