/** Canonical signatures of events and functions (op-monitorism/global_events/monitor.go). */
module EventSignature {
  import opened Basics

  // ---------- Characters ----------

  type Test = char -> bool

  /** \w of the regular expression. */
  predicate IsWord(c: char) { 'a' <= c <= 'z' || 'A' <= c <= 'Z' || '0' <= c <= '9' || c == '_' }

  /** \s of the regular expression: narrower than IsSpace. */
  predicate IsGap(c: char) { c == '\t' || c == '\n' || c == '\U{C}' || c == '\r' || c == ' ' }

  /** unicode.IsSpace, which separates fields. */
  predicate IsSpace(c: char) {
    || '\t' <= c <= '\r' || c == ' ' || c == '\U{85}' || c == '\U{A0}' || c == '\U{1680}' || '\U{2000}' <= c <= '\U{200A}'
    || c == '\U{2028}' || c == '\U{2029}' || c == '\U{202F}' || c == '\U{205F}' || c == '\U{3000}'
  }

  predicate NotSpace(c: char) { !IsSpace(c) }

  predicate NotComma(c: char) { c != ',' }

  predicate NotCloser(c: char) { c != ')' }

  predicate All(s: string, p: Test) { forall i :: 0 <= i < |s| ==> p(s[i]) }

  /** The length of the longest prefix of s whose characters all pass. */
  function Run(s: string, p: Test): (n: nat)
    ensures n <= |s| && All(s[..n], p) && (n < |s| ==> !p(s[n]))
  {
    if s == "" || !p(s[0]) then 0
    else
      var n := Run(s[1..], p);
      assert s[..n + 1] == [s[0]] + s[1..][..n];
      n + 1
  }

  lemma {:induction false} RunIs(a: string, b: string, p: Test)
    requires All(a, p) && (b == "" || !p(b[0]))
    ensures Run(a + b, p) == |a|
  {
    if a == "" {
      assert a + b == b;
    } else {
      RunIs(a[1..], b, p);
      assert (a + b)[1..] == a[1..] + b;
    }
  }

  lemma {:induction false} RunStops(s: string, p: Test, i: nat)
    requires i < |s| && !p(s[i])
    ensures Run(s, p) <= i
  {
    if i > 0 {
      RunStops(s[1..], p, i - 1);
    }
  }

  // ---------- The regular expression ----------

  /** The two groups of a match of (\w+)\s*\(([^)]*)\). */
  datatype Match = Match(name: string, params: string)

  /** The match that starts where s starts. */
  function MatchHere(s: string): Option<Match> {
    var j := Run(s, IsWord);
    var gap := s[j..];
    var opener := gap[Run(gap, IsGap)..];
    if j == 0 || opener == "" || opener[0] != '(' then None
    else
      var params := opener[1..];
      var e := Run(params, NotCloser);
      if e == |params| then None else Some(Match(s[..j], params[..e]))
  }

  /** The leftmost match. */
  function FindSubmatch(s: string): Option<Match> {
    if s == "" then None else if MatchHere(s).Some? then MatchHere(s) else FindSubmatch(s[1..])
  }

  /** What the expression says of a match: a word, white space, and parentheses up to the first closing one. */
  ghost predicate Reads(s: string, m: Match, gap: string, tail: string) {
    && s == m.name + (gap + ("(" + (m.params + (")" + tail))))
    && m.name != "" && All(m.name, IsWord) && All(gap, IsGap) && All(m.params, NotCloser)
  }

  /** At any one start there is at most one way to match, so greediness plays no part. */
  lemma {:induction false} MatchIsForced(s: string, m: Match, gap: string, tail: string)
    requires Reads(s, m, gap, tail)
    ensures MatchHere(s) == Some(m)
  {
    hide Run, IsWord, IsGap, NotCloser;
    assert IsGap('(') == false && IsWord('(') == false by { BracketIsNoWord(); }
    var closer := ")" + tail;
    var params := m.params + closer;
    var opener := "(" + params;
    assert s == m.name + (gap + opener);
    assert (gap + opener)[0] == if gap == "" then '(' else gap[0];
    GapIsNoWord(gap);
    RunIs(m.name, gap + opener, IsWord);
    assert s[|m.name|..] == gap + opener;
    RunIs(gap, opener, IsGap);
    assert (gap + opener)[|gap|..] == opener && opener[1..] == params;
    CloserCloses();
    RunIs(m.params, closer, NotCloser);
    assert params[..|m.params|] == m.params && s[..|m.name|] == m.name;
  }

  lemma {:induction false} BracketIsNoWord()
    ensures !IsGap('(') && !IsWord('(')
  {
  }

  lemma {:induction false} CloserCloses()
    ensures !NotCloser(')')
  {
  }

  lemma {:induction false} OnlyCloserCloses(c: char)
    requires !NotCloser(c)
    ensures c == ')'
  {
  }

  lemma {:induction false} GapIsNoWord(gap: string)
    requires All(gap, IsGap)
    ensures gap != "" ==> !IsWord(gap[0])
  {
    assert gap != "" ==> IsGap(gap[0]);
  }

  lemma {:induction false} MatchReads(s: string)
    requires MatchHere(s).Some?
    ensures exists gap, tail :: Reads(s, MatchHere(s).value, gap, tail)
  {
    hide Run, IsWord, IsGap, NotCloser;
    var j := Run(s, IsWord);
    var rest := s[j..];
    var g := Run(rest, IsGap);
    var params := rest[g..][1..];
    var e := Run(params, NotCloser);
    OnlyCloserCloses(params[e]);
    Reassemble(s, j, rest, g, params, e);
    assert Reads(s, MatchHere(s).value, rest[..g], params[e + 1..]);
  }

  lemma {:induction false} Reassemble(s: string, j: nat, rest: string, g: nat, params: string, e: nat)
    requires j <= |s| && rest == s[j..] && g < |rest| && rest[g] == '(' && params == rest[g..][1..] && e < |params| && params[e] == ')'
    ensures s == s[..j] + (rest[..g] + ("(" + (params[..e] + (")" + params[e + 1..]))))
  {
    assert params[e..] == ")" + params[e + 1..];
    assert params == params[..e] + params[e..];
    assert rest[g..] == "(" + params;
    assert rest == rest[..g] + rest[g..];
    assert s == s[..j] + rest;
  }

  /** The result is the leftmost match, in the regular expression's own terms, and None exactly without any. */
  lemma {:induction false} FindIsLeftmost(s: string, m: Match)
    ensures FindSubmatch(s) == Some(m) <==>
            exists i :: 0 <= i < |s| && MatchHere(s[i..]) == Some(m) && NoMatchBefore(s, i)
    ensures FindSubmatch(s) == None <==> NoMatchBefore(s, |s|)
  {
    hide MatchHere;
    if s != "" {
      assert s[0..] == s;
      FindIsLeftmost(s[1..], m);
      assert forall i :: 0 <= i < |s[1..]| ==> s[1..][i..] == s[i + 1..];
      if MatchHere(s).Some? {
        assert MatchHere(s) == Some(m) ==> MatchHere(s[0..]) == Some(m) && NoMatchBefore(s, 0);
        assert !NoMatchBefore(s, |s|);
      } else {
        NoMatchShifts(s);
        if i :| 0 <= i < |s[1..]| && MatchHere(s[1..][i..]) == Some(m) && NoMatchBefore(s[1..], i) {
          assert MatchHere(s[i + 1..]) == Some(m) && NoMatchBefore(s, i + 1);
        }
        if i :| 0 <= i < |s| && MatchHere(s[i..]) == Some(m) && NoMatchBefore(s, i) {
          assert i > 0 && MatchHere(s[1..][i - 1..]) == Some(m) && NoMatchBefore(s[1..], i - 1);
        }
      }
    }
  }

  ghost predicate NoMatchBefore(s: string, i: int) {
    forall h :: 0 <= h < i && h < |s| ==> MatchHere(s[h..]).None?
  }

  lemma {:induction false} NoMatchShifts(s: string)
    requires s != "" && MatchHere(s).None?
    ensures forall i :: 0 <= i ==> (NoMatchBefore(s, i + 1) <==> NoMatchBefore(s[1..], i))
  {
    hide MatchHere;
    assert s[0..] == s;
    assert forall h :: 0 <= h < |s[1..]| ==> s[1..][h..] == s[h + 1..];
    forall i | 0 <= i ensures NoMatchBefore(s, i + 1) <==> NoMatchBefore(s[1..], i) {
      if NoMatchBefore(s[1..], i) {
        forall h | 0 <= h < i + 1 && h < |s| ensures MatchHere(s[h..]).None? {
          assert h > 0 ==> s[1..][h - 1..] == s[h..];
        }
      }
      if NoMatchBefore(s, i + 1) {
        forall h | 0 <= h < i && h < |s[1..]| ensures MatchHere(s[1..][h..]).None? {
          assert s[1..][h..] == s[h + 1..];
        }
      }
    }
  }

  // ---------- Splitting and joining ----------

  /** strings.Split at commas: never empty, even for the empty string. */
  function Split(s: string): (r: seq<string>)
    ensures |r| > 0
    decreases |s|
  {
    var n := Run(s, NotComma);
    if n == |s| then [s] else [s[..n]] + Split(s[n + 1..])
  }

  /** strings.Join with commas. */
  function Join(parts: seq<string>): string {
    if parts == [] then "" else if |parts| == 1 then parts[0] else parts[0] + ("," + Join(parts[1..]))
  }

  /** strings.Fields: the maximal stretches without white space. */
  function Fields(s: string): seq<string>
    decreases |s|
  {
    var a := Run(s, IsSpace);
    if a == |s| then []
    else
      var b := Run(s[a..], NotSpace);
      assert b > 0;
      [s[a..][..b]] + Fields(s[a..][b..])
  }

  lemma {:induction false} SplitOne(a: string)
    requires All(a, NotComma)
    ensures Split(a) == [a]
  {
    hide Run, NotComma;
    assert a + "" == a;
    RunIs(a, "", NotComma);
  }

  lemma {:induction false} SplitTakes(a: string, s: string)
    requires All(a, NotComma)
    ensures Split(a + ("," + s)) == [a] + Split(s)
  {
    hide Run;
    RunIs(a, "," + s, NotComma);
    var t := a + ("," + s);
    assert t[..|a|] == a;
    assert t[|a| + 1..] == s;
  }

  lemma {:induction false} SplitJoin(parts: seq<string>)
    requires parts != [] && forall i :: 0 <= i < |parts| ==> All(parts[i], NotComma)
    ensures Split(Join(parts)) == parts
  {
    hide Split, NotComma;
    if |parts| == 1 {
      SplitOne(parts[0]);
    } else {
      SplitJoin(parts[1..]);
      SplitTakes(parts[0], Join(parts[1..]));
    }
  }

  // ---------- Formatting ----------

  /** The first field of each part that has one. */
  function Clean(parts: seq<string>): seq<string> {
    if parts == [] then []
    else
      var n := |parts| - 1;
      Clean(parts[..n]) + if Fields(parts[n]) == [] then [] else [Fields(parts[n])[0]]
  }

  function Render(name: string, types: seq<string>): string { name + ("(" + (Join(types) + ")")) }

  function Formatted(signature: string): string {
    match FindSubmatch(signature)
    case None => ""
    case Some(m) => Render(m.name, Clean(Split(m.params)))
  }

  method FormatSignature(signature: string) returns (r: string)
    ensures r == Formatted(signature)
  {
    var matches := FindSubmatch(signature);
    if matches.None? {
      return "";
    }
    var split := Split(matches.value.params);
    var cleanParams: seq<string> := [];
    for i := 0 to |split|
      invariant cleanParams == Clean(split[..i])
    {
      assert split[..i + 1][..i] == split[..i];
      var parts := Fields(split[i]);
      if |parts| > 0 {
        cleanParams := cleanParams + [parts[0]];
      }
    }
    assert split[..|split|] == split;
    return Render(matches.value.name, cleanParams);
  }

  // ---------- Printing a signature ----------

  /** One parameter as a rule may write it: its type, with spacing, modifiers and a name around it; or nothing but space. */
  datatype Param = Blank(space: string) | Typed(space: string, typ: string, rest: string)

  function Text(p: Param): string {
    match p
    case Blank(space) => space
    case Typed(space, typ, rest) => space + (typ + rest)
  }

  ghost predicate WellWritten(p: Param) {
    && All(p.space, IsSpace)
    && (p.Typed? ==>
          && p.typ != "" && All(p.typ, NotSpace)
          && All(p.rest, NotComma) && All(p.rest, NotCloser)
          && (p.rest == "" || IsSpace(p.rest[0])))
  }

  /** No type holds a comma, as the parts of a tuple type would. */
  ghost predicate NoCommas(params: seq<Param>) {
    forall i :: 0 <= i < |params| ==> NoComma(params[i])
  }

  ghost predicate NoComma(p: Param) { p.Typed? ==> All(p.typ, NotComma) }

  function Texts(params: seq<Param>): (r: seq<string>)
    ensures |r| == |params| && forall i :: 0 <= i < |r| ==> r[i] == Text(params[i])
  {
    seq(|params|, i requires 0 <= i < |params| => Text(params[i]))
  }

  function Types(params: seq<Param>): seq<string> {
    if params == [] then []
    else
      var n := |params| - 1;
      Types(params[..n]) + if params[n].Typed? then [params[n].typ] else []
  }

  /** A signature as written: something before the name, spacing before the bracket, anything after it. */
  function Written(head: string, name: string, gap: string, params: seq<Param>, tail: string): string {
    head + (name + (gap + ("(" + (Join(Texts(params)) + (")" + tail)))))
  }

  /** A word, white space and an opening bracket: what the expression takes for the start of a signature. */
  predicate Opens(s: string) {
    var rest := s[Run(s, IsWord)..];
    var opener := rest[Run(rest, IsGap)..];
    Run(s, IsWord) > 0 && opener != "" && opener[0] == '('
  }

  /** What may stand before the name: it ends outside of words and opens no signature itself. */
  ghost predicate IsHead(head: string) {
    (head != "" ==> !IsWord(head[|head| - 1])) && forall h :: 0 <= h < |head| ==> !Opens(head[h..])
  }

  lemma {:induction false} SpaceFacts(c: char)
    ensures IsSpace(c) ==> c != ',' && c != ')' && NotComma(c) && NotCloser(c) && !NotSpace(c)
    ensures NotSpace(c) <==> !IsSpace(c)
  {
  }

  lemma {:induction false} FieldsOfParam(p: Param)
    requires WellWritten(p)
    ensures p.Blank? ==> Fields(Text(p)) == []
    ensures p.Typed? ==> Fields(Text(p)) != [] && Fields(Text(p))[0] == p.typ
  {
    hide Run, IsSpace, NotSpace, NotComma, NotCloser;
    match p {
      case Blank(space) =>
        assert space + "" == space;
        RunIs(space, "", IsSpace);
      case Typed(space, typ, rest) =>
        assert NotSpace(typ[0]);
        SpaceFacts(typ[0]);
        RunIs(space, typ + rest, IsSpace);
        assert Text(p)[|space|..] == typ + rest;
        if rest != "" { SpaceFacts(rest[0]); }
        RunIs(typ, rest, NotSpace);
        assert (typ + rest)[..|typ|] == typ;
    }
  }

  lemma {:induction false} TextHasNoComma(p: Param)
    requires WellWritten(p) && NoComma(p)
    ensures All(Text(p), NotComma)
  {
    hide IsSpace, NotComma;
    forall i | 0 <= i < |p.space| ensures NotComma(p.space[i]) {
      SpaceFacts(p.space[i]);
    }
  }

  lemma {:induction false} CleanTexts(params: seq<Param>)
    requires forall i :: 0 <= i < |params| ==> WellWritten(params[i])
    ensures Clean(Texts(params)) == Types(params)
  {
    hide WellWritten, Fields, Text;
    if params != [] {
      var n := |params| - 1;
      CleanTexts(params[..n]);
      FieldsOfParam(params[n]);
      assert Texts(params)[..n] == Texts(params[..n]);
    }
  }

  lemma {:induction false} JoinKeeps(parts: seq<string>, p: Test)
    requires p(',') && forall i :: 0 <= i < |parts| ==> All(parts[i], p)
    ensures All(Join(parts), p)
  {
    if |parts| > 1 {
      JoinKeeps(parts[1..], p);
    }
  }

  lemma {:induction false} JoinHolds(parts: seq<string>, i: nat, c: char)
    requires i < |parts| && c in parts[i]
    ensures c in Join(parts)
  {
    if |parts| > 1 {
      if i > 0 {
        JoinHolds(parts[1..], i - 1, c);
      }
    }
  }

  // ---------- What precedes the name ----------

  /** A run that ends inside the first part is the run of that part. */
  lemma {:induction false} RunOfPrefix(a: string, b: string, p: Test)
    requires Run(a + b, p) < |a|
    ensures Run(a, p) == Run(a + b, p)
  {
    if a != "" && p(a[0]) {
      assert (a + b)[1..] == a[1..] + b;
      RunOfPrefix(a[1..], b, p);
    }
  }

  lemma {:induction false} MatchOpens(s: string)
    ensures !Opens(s) ==> MatchHere(s) == None
  {
    hide Run;
  }

  lemma {:induction false} WordFacts(c: char)
    ensures IsWord(c) ==> !IsGap(c) && !IsSpace(c) && c != '('
  {
  }

  /** The first character after the word and the white space at the start of s; none if s ends there. */
  lemma {:induction false} OpensAt(s: string, j: nat, g: nat)
    requires j == Run(s, IsWord) && g == Run(s[j..], IsGap)
    ensures Opens(s) <==> j > 0 && j + g < |s| && s[j + g] == '('
  {
    hide Run, IsWord, IsGap;
    assert s[j..][g..] == s[j + g..];
  }

  /** What is no signature's start does not become one by what comes after it, unless that continues the white space. */
  lemma {:induction false} HeadStaysShut(head: string, rest: string)
    requires IsHead(head) && head != "" && rest != "" && !IsGap(rest[0]) && rest[0] != '('
    ensures !Opens(head + rest)
  {
    hide Run, IsWord, IsGap, Opens;
    var s := head + rest;
    assert head[0..] == head && !Opens(head);
    assert s[|head| - 1] == head[|head| - 1] && s[|head|] == rest[0];
    RunStops(s, IsWord, |head| - 1);
    var j := Run(s, IsWord);
    RunOfPrefix(head, rest, IsWord);
    assert s[j..] == head[j..] + rest;
    RunStops(s[j..], IsGap, |head| - j);
    var g := Run(s[j..], IsGap);
    if j + g < |head| {
      RunOfPrefix(head[j..], rest, IsGap);
      OpensAt(head, j, g);
    }
    OpensAt(s, j, g);
  }

  lemma {:induction false} NoMatchInHead(head: string, rest: string)
    requires IsHead(head) && head != "" && rest != "" && IsWord(rest[0])
    ensures MatchHere(head + rest) == None
  {
    hide Run, IsWord, IsGap, Opens, MatchHere;
    WordFacts(rest[0]);
    HeadStaysShut(head, rest);
    MatchOpens(head + rest);
  }

  lemma {:induction false} FindSkipsHead(head: string, rest: string)
    requires IsHead(head) && rest != "" && IsWord(rest[0])
    ensures FindSubmatch(head + rest) == FindSubmatch(rest)
  {
    hide MatchHere, IsWord, Opens;
    if head == "" {
      assert head + rest == rest;
    } else {
      NoMatchInHead(head, rest);
      assert forall h :: 0 <= h < |head[1..]| ==> head[1..][h..] == head[h + 1..];
      FindSkipsHead(head[1..], rest);
      assert (head + rest)[1..] == head[1..] + rest;
    }
  }

  // ---------- The theorems ----------

  lemma {:induction false} TextHasNoCloser(p: Param)
    requires WellWritten(p) && (p.Typed? ==> All(p.typ, NotCloser))
    ensures All(Text(p), NotCloser)
  {
    hide IsSpace, NotCloser;
    forall i | 0 <= i < |p.space| ensures NotCloser(p.space[i]) {
      SpaceFacts(p.space[i]);
    }
  }

  ghost predicate Writes(head: string, name: string, gap: string, params: seq<Param>) {
    && IsHead(head) && name != "" && All(name, IsWord) && All(gap, IsSpace)
    && forall i :: 0 <= i < |params| ==> WellWritten(params[i])
  }

  ghost predicate Closed(params: seq<Param>) {
    forall i :: 0 <= i < |params| && params[i].Typed? ==> All(params[i].typ, NotCloser)
  }

  /** The parameter list is taken apart as it was written. */
  lemma {:induction false} ListIsUnderstood(params: seq<Param>)
    requires NoCommas(params) && forall i :: 0 <= i < |params| ==> WellWritten(params[i])
    ensures Clean(Split(Join(Texts(params)))) == Types(params)
  {
    hide WellWritten, Text, NoComma;
    if params == [] {
      assert Join(Texts(params)) == "";
    } else {
      forall i | 0 <= i < |params| ensures All(Texts(params)[i], NotComma) {
        TextHasNoComma(params[i]);
      }
      SplitJoin(Texts(params));
      CleanTexts(params);
    }
  }

  /**
   Formatting undoes printing: whatever stands before the name, between name and bracket, around the
   types and after the closing bracket, the result is name(type,type,...).
  */
  lemma {:induction false} FormattingUndoesPrinting(head: string, name: string, gap: string, params: seq<Param>, tail: string)
    requires Writes(head, name, gap, params) && All(gap, IsGap) && Closed(params) && NoCommas(params)
    ensures Formatted(Written(head, name, gap, params, tail)) == Render(name, Types(params))
  {
    hide WellWritten, Text, MatchHere, IsWord, IsGap, NotCloser, Clean, Split, Join, NoComma;
    var list := Join(Texts(params));
    forall i | 0 <= i < |params| ensures All(Texts(params)[i], NotCloser) {
      TextHasNoCloser(params[i]);
    }
    CommaStays();
    JoinKeeps(Texts(params), NotCloser);
    var rest := name + (gap + ("(" + (list + (")" + tail))));
    assert Reads(rest, Match(name, list), gap, tail);
    MatchIsForced(rest, Match(name, list), gap, tail);
    assert rest[0] == name[0] && IsWord(name[0]);
    FindSkipsHead(head, rest);
    ListIsUnderstood(params);
  }

  lemma {:induction false} CommaStays()
    ensures NotCloser(',')
  {
  }

  /** A formatted signature has one closing bracket, its last character. */
  lemma {:induction false} OneCloser(signature: string)
    ensures var r := Formatted(signature); r != "" ==> r[|r| - 1] == ')' && All(r[..|r| - 1], NotCloser)
  {
    hide MatchHere, Clean, Split, Join;
    if FindSubmatch(signature).Some? {
      var m := FindSubmatch(signature).value;
      FoundIsPlain(signature, m);
      var types := Clean(Split(m.params));
      CleanIsPlain(m.params);
      JoinKeeps(types, NotCloser);
      var r := Render(m.name, types);
      assert r[..|r| - 1] == m.name + ("(" + Join(types));
    }
  }

  /** A match's name is a word, and its parameters hold no closing bracket. */
  lemma {:induction false} FoundIsPlain(s: string, m: Match)
    requires FindSubmatch(s) == Some(m)
    ensures m.name != "" && All(m.name, IsWord) && All(m.name, NotCloser) && All(m.params, NotCloser)
  {
    hide MatchHere;
    FindIsLeftmost(s, m);
    var i :| 0 <= i < |s| && MatchHere(s[i..]) == Some(m) && NoMatchBefore(s, i);
    MatchReads(s[i..]);
    assert forall k :: 0 <= k < |m.name| ==> IsWord(m.name[k]);
  }

  ghost predicate IsPlain(t: string) { t != "" && All(t, NotSpace) && All(t, NotComma) && All(t, NotCloser) }

  /** The types kept are never empty, and free of white space, commas and closing brackets. */
  lemma {:induction false} CleanIsPlain(params: string)
    requires All(params, NotCloser)
    ensures forall i :: 0 <= i < |Clean(Split(params))| ==> IsPlain(Clean(Split(params))[i])
  {
    SplitIsPlain(params);
    CleanPartsArePlain(Split(params));
  }

  lemma {:induction false} SplitIsPlain(s: string)
    requires All(s, NotCloser)
    ensures forall i :: 0 <= i < |Split(s)| ==> All(Split(s)[i], NotComma) && All(Split(s)[i], NotCloser)
    decreases |s|
  {
    hide NotComma, NotCloser;
    var n := Run(s, NotComma);
    if n == |s| {
      assert s[..n] == s;
    } else {
      SplitIsPlain(s[n + 1..]);
    }
  }

  lemma {:induction false} CleanPartsArePlain(parts: seq<string>)
    requires forall i :: 0 <= i < |parts| ==> All(parts[i], NotComma) && All(parts[i], NotCloser)
    ensures forall i :: 0 <= i < |Clean(parts)| ==> IsPlain(Clean(parts)[i])
  {
    hide NotComma, NotCloser, Fields, IsPlain;
    if parts != [] {
      var n := |parts| - 1;
      CleanPartsArePlain(parts[..n]);
      FirstFieldIsPlain(parts[n]);
    }
  }

  lemma {:induction false} FirstFieldIsPlain(s: string)
    requires All(s, NotComma) && All(s, NotCloser)
    ensures Fields(s) != [] ==> IsPlain(Fields(s)[0])
  {
    hide NotComma, NotCloser;
    var a := Run(s, IsSpace);
    if a < |s| {
      var b := Run(s[a..], NotSpace);
      assert Fields(s)[0] == s[a..][..b];
      assert b > 0;
    }
  }

  // ---- Types with commas: a parameter may be taken apart at them ---------------------------------

  /** No type has an empty part between, before or after its commas. */
  ghost predicate Filled(params: seq<Param>) {
    forall i :: 0 <= i < |params| && params[i].Typed? ==> "" !in Split(params[i].typ)
  }

  lemma {:induction false} JoinAppend(a: seq<string>, b: seq<string>)
    requires a != [] && b != []
    ensures Join(a + b) == Join(a) + ("," + Join(b))
  {
    assert (a + b)[1..] == a[1..] + b;
    if |a| == 1 {
      assert a[1..] + b == b;
    } else {
      JoinAppend(a[1..], b);
      assert a[0] + ("," + (Join(a[1..]) + ("," + Join(b)))) == (a[0] + ("," + Join(a[1..]))) + ("," + Join(b));
    }
  }

  lemma {:induction false} JoinSplit(s: string)
    ensures Join(Split(s)) == s
    decreases |s|
  {
    hide Run, NotComma, Split, Join;
    var n := Run(s, NotComma);
    if n < |s| {
      CommaAt(s, n);
      var first, rest := s[..n], s[n + 1..];
      assert s == first + ("," + rest);
      SplitTakes(first, rest);
      JoinSplit(rest);
      JoinTakes(first, Split(rest));
    } else {
      assert s[..n] == s;
      SplitOne(s);
      JoinOne(s);
    }
  }

  lemma {:induction false} JoinTakes(a: string, parts: seq<string>)
    requires parts != []
    ensures Join([a] + parts) == a + ("," + Join(parts))
  {
    assert ([a] + parts)[1..] == parts;
  }

  lemma {:induction false} CommaAt(s: string, n: nat)
    requires n < |s| && !NotComma(s[n])
    ensures s[n] == ','
  {
  }

  lemma {:induction false} SplitAppend(a: string, b: string)
    ensures Split(a + ("," + b)) == Split(a) + Split(b)
    decreases |a|
  {
    hide Run, NotComma, Split;
    var n := Run(a, NotComma);
    if n == |a| {
      assert a[..n] == a;
      SplitOne(a);
      SplitTakes(a, b);
    } else {
      CommaAt(a, n);
      var first, rest := a[..n], a[n + 1..];
      SplitAppend(rest, b);
      SplitTakes(first, rest);
      SplitTakes(first, rest + ("," + b));
      assert a == first + ("," + rest);
      assert a + ("," + b) == first + ("," + (rest + ("," + b)));
    }
  }

  lemma {:induction false} SplitKeeps(s: string, p: Test)
    requires All(s, p)
    ensures forall i :: 0 <= i < |Split(s)| ==> All(Split(s)[i], NotComma) && All(Split(s)[i], p)
    decreases |s|
  {
    hide NotComma;
    var n := Run(s, NotComma);
    if n == |s| {
      assert s[..n] == s;
    } else {
      SplitKeeps(s[n + 1..], p);
    }
  }

  /** A parameter written as one parameter for each part of its type. */
  function Apart(space: string, parts: seq<string>, rest: string): (r: seq<Param>)
    requires parts != []
    ensures |r| == |parts|
    decreases |parts|
  {
    if |parts| == 1 then [Typed(space, parts[0], rest)] else [Typed(space, parts[0], "")] + Apart("", parts[1..], rest)
  }

  lemma {:induction false} ApartTexts(space: string, parts: seq<string>, rest: string)
    requires parts != []
    ensures Join(Texts(Apart(space, parts, rest))) == space + (Join(parts) + rest)
    decreases |parts|
  {
    var r := Apart(space, parts, rest);
    if |parts| > 1 {
      var more, types := Texts(r)[1..], Join(parts[1..]);
      ApartTexts("", parts[1..], rest);
      assert more == Texts(Apart("", parts[1..], rest));
      assert Join(more) == types + rest by { assert "" + (types + rest) == types + rest; }
      assert Texts(r)[0] == space + parts[0] by { assert parts[0] + "" == parts[0]; }
      TextsInFront(space, parts[0], types, rest);
    }
  }

  lemma {:induction false} TextsInFront(a: string, b: string, c: string, d: string)
    ensures (a + b) + ("," + (c + d)) == a + ((b + ("," + c)) + d)
  {
  }

  lemma {:induction false} ApartTypes(space: string, parts: seq<string>, rest: string)
    requires parts != []
    ensures Types(Apart(space, parts, rest)) == parts
    decreases |parts|
  {
    var r := Apart(space, parts, rest);
    if |parts| == 1 {
      assert r[..0] == [];
    } else {
      var more := Apart("", parts[1..], rest);
      ApartTypes("", parts[1..], rest);
      TypesAppend([r[0]], more);
      assert [r[0]][..0] == [];
    }
  }

  lemma {:induction false} TypesAppend(a: seq<Param>, b: seq<Param>)
    ensures Types(a + b) == Types(a) + Types(b)
  {
    if b == [] {
      assert a + b == a;
    } else {
      assert (a + b)[..|a + b| - 1] == a + b[..|b| - 1];
      TypesAppend(a, b[..|b| - 1]);
    }
  }

  lemma {:induction false} ApartIsWritten(space: string, parts: seq<string>, rest: string)
    requires parts != [] && All(space, IsSpace) && All(rest, NotComma) && All(rest, NotCloser) && (rest == "" || IsSpace(rest[0]))
    requires forall i :: 0 <= i < |parts| ==> parts[i] != "" && All(parts[i], NotSpace) && All(parts[i], NotComma) && All(parts[i], NotCloser)
    ensures forall i :: 0 <= i < |parts| ==>
              var p := Apart(space, parts, rest)[i]; WellWritten(p) && NoComma(p) && (p.Typed? ==> All(p.typ, NotCloser))
    decreases |parts|
  {
    hide IsSpace, NotSpace, NotComma, NotCloser;
    if |parts| > 1 {
      ApartIsWritten("", parts[1..], rest);
    }
  }

  function ApartOf(p: Param): seq<Param> {
    match p
    case Blank(_) => [p]
    case Typed(space, typ, rest) => Apart(space, Split(typ), rest)
  }

  /** The same list, with every parameter taken apart. */
  function Expand(params: seq<Param>): seq<Param> {
    if params == [] then [] else Expand(params[..|params| - 1]) + ApartOf(params[|params| - 1])
  }

  /** One parameter taken apart is written the same, and has the same type text. */
  ghost predicate SameOne(p: Param, r: seq<Param>) {
    && r != [] && Join(Texts(r)) == Text(p) && (Types(r) != [] <==> p.Typed?) && (p.Typed? ==> Join(Types(r)) == p.typ)
    && Elementary(r)
  }

  ghost predicate Elementary(params: seq<Param>) {
    forall i :: 0 <= i < |params| ==> WellWritten(params[i]) && NoComma(params[i]) && (params[i].Typed? ==> All(params[i].typ, NotCloser))
  }

  lemma {:induction false} TypesOne(p: Param)
    ensures Types([p]) == if p.Typed? then [p.typ] else []
  {
    assert [p][..0] == [];
  }

  lemma {:induction false} BlankApart(p: Param)
    requires WellWritten(p) && p.Blank?
    ensures SameOne(p, [p])
  {
    hide IsSpace, Types, Join;
    TypesOne(p);
    JoinOne(Text(p));
    assert Texts([p]) == [Text(p)];
  }

  lemma {:induction false} TypedApart(p: Param)
    requires WellWritten(p) && p.Typed? && All(p.typ, NotCloser) && "" !in Split(p.typ)
    ensures SameOne(p, Apart(p.space, Split(p.typ), p.rest))
  {
    hide IsSpace, NotSpace, NotComma, NotCloser, Split, Types, Join, Texts;
    SplitKeeps(p.typ, NotCloser);
    SplitKeeps(p.typ, NotSpace);
    JoinSplit(p.typ);
    ApartTexts(p.space, Split(p.typ), p.rest);
    ApartTypes(p.space, Split(p.typ), p.rest);
    ApartIsWritten(p.space, Split(p.typ), p.rest);
  }

  lemma {:induction false} ApartIsSame(p: Param)
    requires WellWritten(p) && (p.Typed? ==> All(p.typ, NotCloser) && "" !in Split(p.typ))
    ensures SameOne(p, ApartOf(p))
  {
    hide SameOne, Apart, Split, WellWritten, NotCloser;
    if p.Typed? {
      TypedApart(p);
    } else {
      BlankApart(p);
    }
  }

  lemma {:induction false} TextsAppend(a: seq<Param>, b: seq<Param>)
    ensures Texts(a + b) == Texts(a) + Texts(b)
  {
  }

  lemma {:induction false} TextsOne(p: Param)
    ensures Texts([p]) == [Text(p)]
  {
  }

  ghost predicate SameList(params: seq<Param>, r: seq<Param>) {
    && Elementary(r) && (r == [] <==> params == []) && (Types(r) == [] <==> Types(params) == [])
    && Join(Texts(r)) == Join(Texts(params)) && Join(Types(r)) == Join(Types(params))
  }

  lemma {:induction false} SameListStep(params: seq<Param>, r: seq<Param>, p: Param, one: seq<Param>)
    requires SameList(params, r) && SameOne(p, one)
    ensures SameList(params + [p], r + one)
  {
    hide WellWritten, NoComma, Text, NotCloser, Join, Types, Texts;
    TypesAppend(params, [p]);
    TypesOne(p);
    TextsOne(p);
    TypesAppend(r, one);
    TextsAppend(r, one);
    TextsAppend(params, [p]);
    JoinOne(Text(p));
    if p.Typed? { JoinOne(p.typ); }
    JoinBoth(Texts(r), Texts(params), Texts(one), Texts([p]));
    JoinBoth(Types(r), Types(params), Types(one), Types([p]));
  }

  lemma {:induction false} ExpandIsSame(params: seq<Param>)
    requires Closed(params) && Filled(params) && forall i :: 0 <= i < |params| ==> WellWritten(params[i])
    ensures SameList(params, Expand(params))
  {
    hide WellWritten, NotCloser, Split, SameOne, SameList, ApartOf;
    if params == [] {
      NothingSame();
    } else {
      var n := |params| - 1;
      ExpandIsSame(params[..n]);
      ApartIsSame(params[n]);
      assert params[..n] + [params[n]] == params;
      SameListStep(params[..n], Expand(params[..n]), params[n], ApartOf(params[n]));
    }
  }

  lemma {:induction false} NothingSame()
    ensures SameList([], [])
  {
  }

  lemma {:induction false} ElementaryIsClosed(params: seq<Param>)
    requires Elementary(params)
    ensures NoCommas(params) && Closed(params) && forall i :: 0 <= i < |params| ==> WellWritten(params[i])
  {
  }

  lemma {:induction false} JoinOne(s: string)
    ensures Join([s]) == s
  {
  }

  lemma {:induction false} JoinBoth(a: seq<string>, b: seq<string>, c: seq<string>, d: seq<string>)
    requires Join(a) == Join(b) && Join(c) == Join(d) && (a == [] <==> b == []) && (c == [] <==> d == [])
    ensures Join(a + c) == Join(b + d)
  {
    hide Join;
    if a != [] && c != [] {
      JoinAppend(a, c);
      JoinAppend(b, d);
    } else if a == [] {
      assert a + c == c && b + d == d;
    } else {
      assert a + c == a && b + d == b;
    }
  }

  /** An empty part of a type stays one in the joined list. */
  lemma {:induction false} EmptyPartStays(parts: seq<string>, i: nat)
    requires i < |parts| && "" in Split(parts[i])
    ensures "" in Split(Join(parts))
  {
    hide Split;
    if |parts| > 1 {
      SplitAppend(parts[0], Join(parts[1..]));
      if i > 0 {
        EmptyPartStays(parts[1..], i - 1);
      }
    }
  }

  // ---- White space that the expression does not know --------------------------------------------

  predicate NotOpener(c: char) { c != '(' }

  lemma {:induction false} NothingOpens(s: string)
    requires All(s, NotOpener)
    ensures FindSubmatch(s) == None
  {
    hide Run;
    if s != "" {
      MatchOpens(s);
      NothingOpens(s[1..]);
    }
  }

  /** Before the bracket: a word, or its end, and white space some of which the expression does not know. */
  lemma {:induction false} WideGapOpensNothing(name: string, gap: string, rest: string)
    requires All(name, IsWord) && All(gap, IsSpace) && !All(gap, IsGap) && All(rest, NotOpener)
    ensures FindSubmatch(name + (gap + ("(" + rest))) == None
  {
    hide IsWord, IsGap, IsSpace, MatchHere;
    var s := name + (gap + ("(" + rest));
    if name == "" {
      assert s == gap + ("(" + rest);
      GapOpensNothing(gap, rest);
    } else {
      var after := gap + ("(" + rest);
      assert s == name + after && after[0] == gap[0];
      SpaceIsNoWord(gap[0]);
      RunIs(name, after, IsWord);
      assert s[|name|..] == after;
      var q :| 0 <= q < |gap| && !IsGap(gap[q]);
      assert after[q] == gap[q];
      RunStops(after, IsGap, q);
      var g := Run(after, IsGap);
      assert after[g] == gap[g];
      SpaceIsNoWord(gap[g]);
      OpensAt(s, |name|, g);
      MatchOpens(s);
      assert s[1..] == name[1..] + after;
      WideGapOpensNothing(name[1..], gap, rest);
    }
  }

  lemma {:induction false} SpaceIsNoWord(c: char)
    ensures IsSpace(c) ==> !IsWord(c) && c != '('
  {
  }

  /** No match starts in white space or at the bracket itself. */
  lemma {:induction false} GapOpensNothing(gap: string, rest: string)
    requires All(gap, IsSpace) && All(rest, NotOpener)
    ensures FindSubmatch(gap + ("(" + rest)) == None
  {
    hide IsWord, IsGap, IsSpace, MatchHere;
    var s := gap + ("(" + rest);
    if gap == "" {
      assert s == "(" + rest && s[1..] == rest;
      BracketIsNoWord();
      RunStops(s, IsWord, 0);
      OpensAt(s, 0, Run(s[0..], IsGap));
      MatchOpens(s);
      NothingOpens(rest);
    } else {
      assert s[0] == gap[0];
      SpaceIsNoWord(s[0]);
      RunStops(s, IsWord, 0);
      OpensAt(s, 0, Run(s[0..], IsGap));
      MatchOpens(s);
      assert s[1..] == gap[1..] + ("(" + rest);
      GapOpensNothing(gap[1..], rest);
    }
  }

  // ---- The exact condition ----------------------------------------------------------------------

  lemma {:induction false} RenderTellsApart(name: string, types: string, other: string, others: string)
    requires All(name, IsWord) && All(other, IsWord)
    requires name + ("(" + (types + ")")) == other + ("(" + (others + ")"))
    ensures name == other && types == others
  {
    hide Run, IsWord;
    BracketIsNoWord();
    var a, b := "(" + (types + ")"), "(" + (others + ")");
    RunIs(name, a, IsWord);
    RunIs(other, b, IsWord);
    assert (name + a)[..|name|] == name && (other + b)[..|name|] == other;
    assert (name + a)[|name|..] == a && (other + b)[|name|..] == b;
    assert a[1..|a| - 1] == types && b[1..|b| - 1] == others;
  }

  /** The types of a result are all nonempty and free of commas, so none has an empty part. */
  lemma {:induction false} ResultIsFilled(signature: string, name: string, params: seq<Param>)
    requires All(name, IsWord) && (forall i :: 0 <= i < |params| ==> WellWritten(params[i]))
    requires Formatted(signature) == Render(name, Types(params))
    ensures Closed(params) && Filled(params)
  {
    hide WellWritten, Split, Join, Clean, MatchHere, IsWord, NotCloser, NotComma, NotSpace;
    assert |Render(name, Types(params))| > 0;
    if FindSubmatch(signature).Some? {
      var m := FindSubmatch(signature).value;
      var kept := Clean(Split(m.params));
      FoundIsPlain(signature, m);
      CleanIsPlain(m.params);
      RenderTellsApart(m.name, Join(kept), name, Join(Types(params)));
      CommaStays();
      JoinKeeps(kept, NotCloser);
      forall i | 0 <= i < |params| && params[i].Typed? ensures All(params[i].typ, NotCloser) && "" !in Split(params[i].typ) {
        TypesHold(params, i);
        var t :| 0 <= t < |Types(params)| && Types(params)[t] == params[i].typ;
        TypeOfResult(Types(params), t, kept);
        TypeIsNonempty(params[i]);
      }
    }
  }

  lemma {:induction false} TypeIsNonempty(p: Param)
    requires WellWritten(p) && p.Typed?
    ensures p.typ != ""
  {
  }

  lemma {:induction false} TypeOfResult(types: seq<string>, t: nat, kept: seq<string>)
    requires t < |types| && Join(types) == Join(kept) && All(Join(kept), NotCloser)
    requires forall i :: 0 <= i < |kept| ==> IsPlain(kept[i])
    ensures All(types[t], NotCloser) && (types[t] != "" ==> "" !in Split(types[t]))
  {
    hide Join, Split, NotCloser, NotComma, NotSpace;
    forall k | 0 <= k < |types[t]| ensures NotCloser(types[t][k]) {
      JoinHolds(types, t, types[t][k]);
    }
    if "" in Split(types[t]) {
      EmptyPartStays(types, t);
      if kept != [] {
        SplitJoin(kept);
      } else {
        if types[t] != "" {
          JoinHolds(types, t, types[t][0]);
          JoinOfNone();
        }
      }
    }
  }

  lemma {:induction false} JoinOfNone()
    ensures Join([]) == ""
  {
  }

  /**
   Exactly when formatting undoes printing, for types that are only known to be free of white
   space: the white space before the bracket must be of the kind the expression knows, no type may
   hold a closing bracket (a tuple type is cut short at its first one), and none may have an empty
   part between commas. Where the white space is of another kind, the signature must be the only one
   in the string; then nothing matches, the result is empty, and the caller panics.
  */
  lemma {:induction false} CanonicalExactly(head: string, name: string, gap: string, params: seq<Param>, tail: string)
    requires Writes(head, name, gap, params)
    requires All(gap, IsGap) || (All(Join(Texts(params)), NotOpener) && All(tail, NotOpener))
    ensures Formatted(Written(head, name, gap, params, tail)) == Render(name, Types(params)) <==>
            All(gap, IsGap) && Closed(params) && Filled(params)
    ensures !All(gap, IsGap) ==> Formatted(Written(head, name, gap, params, tail)) == ""
  {
    hide WellWritten, Join, Closed, Filled, IsGap, IsSpace, IsWord, Opens, MatchHere, Clean, Split, NotOpener;
    var list := Join(Texts(params));
    if !All(gap, IsGap) {
      var rest := list + (")" + tail);
      CloserOpensNothing();
      assert All(rest, NotOpener) by {
        assert forall i :: 0 <= i < |rest| ==> rest[i] == if i < |list| then list[i] else if i == |list| then ')' else tail[i - |list| - 1];
      }
      WideGapOpensNothing(name, gap, rest);
      FindSkipsHead(head, name + (gap + ("(" + rest)));
    } else if Closed(params) && Filled(params) {
      ExpandIsSame(params);
      ElementaryIsClosed(Expand(params));
      FormattingUndoesPrinting(head, name, gap, Expand(params), tail);
    } else if Formatted(Written(head, name, gap, params, tail)) == Render(name, Types(params)) {
      ResultIsFilled(Written(head, name, gap, params, tail), name, params);
    }
  }

  lemma {:induction false} CloserOpensNothing()
    ensures NotOpener(')')
  {
  }

  /** A no-break space before the bracket: the result is empty. */
  lemma {:induction false} NoBreakSpaceFails()
    ensures Formatted("f\U{A0}(a)") == ""
  {
    var params := [Typed("", "a", "")];
    assert params[..0] == [] && Join(Texts(params)) == "a";
    assert !IsGap("\U{A0}"[0]);
    assert Written("", "f", "\U{A0}", params, "") == "f\U{A0}(a)";
    CanonicalExactly("", "f", "\U{A0}", params, "");
  }

  lemma {:induction false} TypesHold(params: seq<Param>, i: nat)
    requires i < |params| && params[i].Typed?
    ensures exists t :: 0 <= t < |Types(params)| && Types(params)[t] == params[i].typ
  {
    var n := |params| - 1;
    if i < n {
      TypesHold(params[..n], i);
      var t :| 0 <= t < |Types(params[..n])| && Types(params[..n])[t] == params[i].typ;
      assert Types(params)[t] == params[i].typ;
    } else {
      assert Types(params)[|Types(params[..n])|] == params[i].typ;
    }
  }

  function Bare(types: seq<string>): (r: seq<Param>)
    ensures |r| == |types| && forall i :: 0 <= i < |r| ==> r[i] == Typed("", types[i], "")
  {
    seq(|types|, i requires 0 <= i < |types| => Typed("", types[i], ""))
  }

  lemma {:induction false} BareTypes(types: seq<string>)
    ensures Types(Bare(types)) == types && Texts(Bare(types)) == types
  {
    assert forall i :: 0 <= i < |types| ==> Text(Bare(types)[i]) == types[i];
    if types != [] {
      var n := |types| - 1;
      BareTypes(types[..n]);
      assert Bare(types)[..n] == Bare(types[..n]);
    }
  }

  /** Formatting what is already formatted changes nothing, on every string. */
  lemma {:induction false} FormattingIsIdempotent(signature: string)
    ensures Formatted(Formatted(signature)) == Formatted(signature)
  {
    hide MatchHere, Clean, Split, Join, NotCloser, NotComma, NotSpace, IsWord, IsGap;
    if FindSubmatch(signature).Some? {
      var m := FindSubmatch(signature).value;
      FoundIsPlain(signature, m);
      CleanIsPlain(m.params);
      var types := Clean(Split(m.params));
      BareTypes(types);
      assert Written("", m.name, "", Bare(types), "") == Render(m.name, types);
      FormattingUndoesPrinting("", m.name, "", Bare(types), "");
    }
  }

  /** The empty string, which makes the caller panic, comes out exactly when nothing matches anywhere. */
  lemma {:induction false} EmptyExactly(signature: string)
    ensures Formatted(signature) == "" <==> NoMatchBefore(signature, |signature|)
  {
    FindIsLeftmost(signature, Match("", ""));
  }

  // ---- Names with other characters ---------------------------------------------------------------

  /** A character at which the expression cuts a name, such as the $ that Solidity allows in one. */
  predicate Cuts(c: char) { !IsWord(c) && !IsGap(c) && c != '(' }

  lemma {:induction false} WordIsShut(first: string, c: char)
    requires All(first, IsWord) && Cuts(c)
    ensures IsHead(first + [c])
  {
    hide Run, IsWord, IsGap, Opens;
    var head := first + [c];
    forall h | 0 <= h < |head| ensures !Opens(head[h..]) {
      assert head[h..] == first[h..] + [c];
      RunIs(first[h..], [c], IsWord);
      assert head[h..][|first| - h..] == "" + [c];
      RunIs("", [c], IsGap);
      OpensAt(head[h..], |first| - h, 0);
    }
  }

  lemma {:induction false} HeadGoesOn(head: string, first: string, c: char)
    requires IsHead(head) && All(first, IsWord) && Cuts(c)
    ensures IsHead(head + (first + [c]))
  {
    hide Run, IsWord, IsGap, Opens;
    var part, all := first + [c], head + (first + [c]);
    WordIsShut(first, c);
    WordFacts(part[0]);
    forall h | 0 <= h < |all| ensures !Opens(all[h..]) {
      if h < |head| {
        assert all[h..] == head[h..] + part;
        HeadSuffix(head, h);
        HeadStaysShut(head[h..], part);
      } else {
        assert all[h..] == part[h - |head|..];
      }
    }
  }

  lemma {:induction false} HeadSuffix(head: string, h: nat)
    requires IsHead(head) && h < |head|
    ensures IsHead(head[h..])
  {
    hide Opens, IsWord;
    assert forall k :: 0 <= k < |head[h..]| ==> head[h..][k..] == head[h + k..];
  }

  /** A name with such a character is cut after it: of first$name the result keeps only name. */
  lemma {:induction false} NameIsCut(head: string, first: string, c: char, name: string, gap: string, params: seq<Param>, tail: string)
    requires Writes(head, name, gap, params) && All(first, IsWord) && Cuts(c)
    requires All(gap, IsGap) && Closed(params) && NoCommas(params)
    ensures Formatted(Written(head, first + ([c] + name), gap, params, tail)) == Render(name, Types(params))
  {
    hide Closed, NoCommas, WellWritten, IsWord, IsGap, Opens, Formatted, Cuts;
    HeadGoesOn(head, first, c);
    FormattingUndoesPrinting(head + (first + [c]), name, gap, params, tail);
    NameMoves(head, first, c, name, gap, params, tail);
  }

  lemma {:induction false} NameMoves(head: string, first: string, c: char, name: string, gap: string, params: seq<Param>, tail: string)
    ensures Written(head, first + ([c] + name), gap, params, tail) == Written(head + (first + [c]), name, gap, params, tail)
  {
    hide Join;
    var rest := gap + ("(" + (Join(Texts(params)) + (")" + tail)));
    assert head + ((first + ([c] + name)) + rest) == (head + (first + [c])) + (name + rest);
  }

  /** The dollar sign is such a character. */
  lemma {:induction false} DollarCutsName()
    ensures Formatted("a$b()") == "b()"
  {
    hide Formatted, FindSubmatch, Opens, Run;
    NameIsCut("", "a", '$', "b", "", [], "");
    assert "a" + (['$'] + "b") == "a$b";
    assert Written("", "a$b", "", [], "") == "a$b()";
    assert Render("b", Types([])) == "b()";
  }
}
