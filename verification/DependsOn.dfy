/** Printing and parsing dependency lists. */
module DependsOn {
  import opened Text

  /** unicode.IsSpace */
  predicate IsSpace(c: char) {
    || '\t' <= c <= '\r' || c == ' ' || c == '\U{85}' || c == '\U{A0}' || c == '\U{1680}'
    || '\U{2000}' <= c <= '\U{200A}' || c == '\U{2028}' || c == '\U{2029}' || c == '\U{202F}'
    || c == '\U{205F}' || c == '\U{3000}'
  }

  // ----- Trimming by a property of characters -----

  function TrimLeft(s: string, blank: char -> bool): (r: string)
    ensures r == [] || !blank(r[0])
  {
    if s != [] && blank(s[0]) then TrimLeft(s[1..], blank) else s
  }

  function TrimRight(s: string, blank: char -> bool): (r: string)
    ensures r == [] || !blank(r[|r|-1])
    ensures r <= s
  {
    if s != [] && blank(s[|s|-1]) then TrimRight(s[..|s|-1], blank) else s
  }

  /** strings.TrimFunc */
  function TrimFunc(s: string, blank: char -> bool): string {
    TrimRight(TrimLeft(s, blank), blank)
  }

  predicate NoBlankEnds(s: string, blank: char -> bool) {
    s == [] || (!blank(s[0]) && !blank(s[|s|-1]))
  }

  lemma TrimFuncTrims(s: string, blank: char -> bool)
    ensures NoBlankEnds(TrimFunc(s, blank), blank)
  {}

  lemma TrimFuncFixes(s: string, b: char, blank: char -> bool)
    requires NoBlankEnds(s, blank) && blank(b)
    ensures TrimFunc(s, blank) == s && TrimFunc([b] + s, blank) == s
  {
    assert ([b] + s)[1..] == s;
  }

  ghost predicate AllBlank(s: string, i: int, j: int, blank: char -> bool) {
    0 <= i <= j <= |s| && forall k :: i <= k < j ==> blank(s[k])
  }

  /** r is what lies between i and j, and all around it is blank. */
  ghost predicate StripsTo(s: string, i: int, j: int, r: string, blank: char -> bool) {
    0 <= i <= j <= |s| && s[i..j] == r && AllBlank(s, 0, i, blank) && AllBlank(s, j, |s|, blank)
  }

  lemma {:induction false} TrimLeftStrips(s: string, blank: char -> bool) returns (i: nat)
    ensures i <= |s| && TrimLeft(s, blank) == s[i..] && AllBlank(s, 0, i, blank)
  {
    i := 0;
    if s != [] && blank(s[0]) {
      var rest := s[1..];
      var k := TrimLeftStrips(rest, blank);
      i := k + 1;
      assert rest[k..] == s[i..];
      forall m | 0 <= m < i ensures blank(s[m]) {
        assert m > 0 ==> rest[m-1] == s[m];
      }
    }
  }

  lemma {:induction false} TrimRightStrips(s: string, blank: char -> bool) returns (n: nat)
    ensures n <= |s| && TrimRight(s, blank) == s[..n] && AllBlank(s, n, |s|, blank)
    decreases |s|
  {
    n := |s|;
    if s != [] && blank(s[|s|-1]) {
      var shorter := s[..|s|-1];
      n := TrimRightStrips(shorter, blank);
      assert shorter[..n] == s[..n];
      forall m | n <= m < |s| ensures blank(s[m]) {
        assert m < |s| - 1 ==> shorter[m] == s[m];
      }
    }
  }

  lemma TrimFuncStrips(s: string, blank: char -> bool) returns (i: nat, j: nat)
    ensures StripsTo(s, i, j, TrimFunc(s, blank), blank)
  {
    i := TrimLeftStrips(s, blank);
    var rest := s[i..];
    var n := TrimRightStrips(rest, blank);
    j := i + n;
    assert rest[..n] == s[i..j];
    forall m | j <= m < |s| ensures blank(s[m]) {
      assert rest[m-i] == s[m];
    }
  }

  lemma TrimFuncWithin(s: string, blank: char -> bool, c: char)
    requires c !in s
    ensures c !in TrimFunc(s, blank)
  {
    var i, j := TrimFuncStrips(s, blank);
  }

  /** Stripping to a text without blanks at its ends has one result. */
  lemma StripsToOne(s: string, i: int, j: int, r: string, i': int, j': int, r': string, blank: char -> bool)
    requires StripsTo(s, i, j, r, blank) && NoBlankEnds(r, blank)
    requires StripsTo(s, i', j', r', blank) && NoBlankEnds(r', blank)
    ensures r == r'
  {
    InsideOther(s, i, j, r, i', j', r', blank);
    InsideOther(s, i', j', r', i, j, r, blank);
  }

  lemma InsideOther(s: string, i: int, j: int, r: string, i': int, j': int, r': string, blank: char -> bool)
    requires StripsTo(s, i, j, r, blank) && NoBlankEnds(r, blank) && StripsTo(s, i', j', r', blank)
    ensures r != [] ==> i' <= i && j <= j'
  {
    if r != [] {
      assert r[0] == s[i] && r[|r|-1] == s[j-1];
    }
  }

  // ----- Trimming white space -----

  /** strings.TrimSpace */
  function TrimSpace(s: string): string {
    TrimFunc(s, IsSpace)
  }

  predicate Trimmed(s: string) {
    NoBlankEnds(s, IsSpace)
  }

  /** TrimSpace removes all white space at both ends and nothing else. */
  lemma TrimSpaceExactly(s: string, r: string)
    ensures r == TrimSpace(s) <==> Trimmed(r) && exists i, j :: StripsTo(s, i, j, r, IsSpace)
  {
    var i, j := TrimFuncStrips(s, IsSpace);
    TrimFuncTrims(s, IsSpace);
    if i', j' :| StripsTo(s, i', j', r, IsSpace) && Trimmed(r) {
      StripsToOne(s, i, j, TrimSpace(s), i', j', r, IsSpace);
    }
  }

  /** The 25 code points with the property White_Space. */
  lemma IsSpaceExactly(c: char)
    ensures IsSpace(c) <==> c as int in {
      0x09, 0x0A, 0x0B, 0x0C, 0x0D, 0x20, 0x85, 0xA0, 0x1680,
      0x2000, 0x2001, 0x2002, 0x2003, 0x2004, 0x2005, 0x2006, 0x2007, 0x2008, 0x2009, 0x200A,
      0x2028, 0x2029, 0x202F, 0x205F, 0x3000}
  {
    assert 0x09 <= c as int <= 0x0D ==> c as int in {0x09, 0x0A, 0x0B, 0x0C, 0x0D};
  }

  lemma TrimmedIsFixed(s: string)
    requires Trimmed(s)
    ensures TrimSpace(s) == s && TrimSpace(" " + s) == s
  {
    TrimFuncFixes(s, ' ', IsSpace);
  }

  function TrimAll(parts: seq<string>): (r: seq<string>)
    ensures |r| == |parts| && forall i :: 0 <= i < |r| ==> r[i] == TrimSpace(parts[i])
  {
    seq(|parts|, i requires 0 <= i < |parts| => TrimSpace(parts[i]))
  }

  function Parsed(s: string): seq<string> {
    if s == [] then [] else TrimAll(Split(s, ','))
  }

  method ParseDependsOn(s: string) returns (deps: seq<string>)
    ensures deps == Parsed(s)
  {
    if s == "" {
      return [];
    }
    deps := Split(s, ',');
    ghost var parts := deps;
    for i := 0 to |deps|
      invariant |deps| == |parts|
      invariant forall j :: 0 <= j < i ==> deps[j] == TrimSpace(parts[j])
      invariant forall j :: i <= j < |deps| ==> deps[j] == parts[j]
    {
      deps := deps[i := TrimSpace(deps[i])];
    }
    assert deps == TrimAll(parts);
  }

  /** The names parsed from a text are the parts between its commas, stripped. */
  lemma ParsedParts(s: string, i: nat)
    requires s != [] && i < |Split(s, ',')|
    ensures |Parsed(s)| == |Split(s, ',')| && Trimmed(Parsed(s)[i])
    ensures exists a, b :: StripsTo(Split(s, ',')[i], a, b, Parsed(s)[i], IsSpace)
  {
    TrimSpaceExactly(Split(s, ',')[i], Parsed(s)[i]);
  }

  function StringifyDependsOn(deps: seq<string>): string {
    Join(deps, ", ")
  }

  // ----- Round trip -----

  predicate CleanName(name: string) {
    Trimmed(name) && ',' !in name
  }

  /** Splitting a printed list gives back the names, all but the first with a leading blank. */
  lemma {:induction false} SplitPrinted(deps: seq<string>, lead: string)
    requires deps != [] && forall d :: d in deps ==> ',' !in d
    requires ',' !in lead
    ensures Split(lead + StringifyDependsOn(deps), ',')
            == [lead + deps[0]] + seq(|deps| - 1, i requires 0 <= i < |deps| - 1 => " " + deps[i+1])
  {
    if |deps| == 1 {
      SplitPlain(lead + deps[0], ',');
    } else {
      var rest := deps[1..];
      SplitPrinted(rest, " ");
      SplitAtFirst(lead + deps[0], ',', " " + StringifyDependsOn(rest));
      assert lead + StringifyDependsOn(deps) == lead + deps[0] + [','] + (" " + StringifyDependsOn(rest));
    }
  }

  predicate AllClean(deps: seq<string>) {
    forall d :: d in deps ==> CleanName(d)
  }

  lemma PrintedEmptyOnlyForBlank(deps: seq<string>)
    ensures StringifyDependsOn(deps) == [] <==> deps == [] || deps == [""]
  {}

  lemma ParsedNamesClean(s: string)
    ensures AllClean(Parsed(s))
  {
    SplitPartsPlain(s, ',');
    forall d | d in Parsed(s) ensures CleanName(d) {
      var i :| 0 <= i < |Parsed(s)| && Parsed(s)[i] == d;
      TrimmedPartClean(Split(s, ',')[i]);
    }
  }

  lemma TrimmedPartClean(part: string)
    requires ',' !in part
    ensures CleanName(TrimSpace(part))
  {
    TrimFuncTrims(part, IsSpace);
    TrimFuncWithin(part, IsSpace, ',');
  }

  lemma PrintedParts(deps: seq<string>, i: nat)
    requires i < |deps| && forall d :: d in deps ==> ',' !in d
    ensures var parts := Split(StringifyDependsOn(deps), ',');
      |parts| == |deps| && parts[i] == if i == 0 then deps[0] else " " + deps[i]
  {
    SplitPrinted(deps, "");
    assert "" + StringifyDependsOn(deps) == StringifyDependsOn(deps);
    assert "" + deps[0] == deps[0];
  }

  lemma CleanNames(deps: seq<string>)
    requires AllClean(deps)
    ensures forall d :: d in deps ==> Trimmed(d) && ',' !in d
  {
    forall d | d in deps ensures Trimmed(d) && ',' !in d {
      assert CleanName(d);
    }
  }

  lemma PrintedPartTrims(deps: seq<string>, i: nat, part: string)
    requires i < |deps| && Trimmed(deps[i]) && part == if i == 0 then deps[0] else " " + deps[i]
    ensures TrimSpace(part) == deps[i]
  {
    TrimmedIsFixed(deps[i]);
  }

  lemma CleanListsParseBack(deps: seq<string>)
    requires deps != [] && deps != [""] && AllClean(deps)
    ensures Parsed(StringifyDependsOn(deps)) == deps
  {
    PrintedEmptyOnlyForBlank(deps);
    CleanNames(deps);
    PrintedParts(deps, 0);
    var parts := Split(StringifyDependsOn(deps), ',');
    forall i | 0 <= i < |deps| ensures TrimSpace(parts[i]) == deps[i] {
      PrintedParts(deps, i);
      PrintedPartTrims(deps, i, parts[i]);
    }
    assert TrimAll(parts) == deps;
  }

  /** Parsing what was printed gives the list back exactly for lists of clean names other than [""]. */
  lemma ParsePrinted(deps: seq<string>)
    ensures Parsed(StringifyDependsOn(deps)) == deps <==> deps != [""] && AllClean(deps)
  {
    ParsedNamesClean(StringifyDependsOn(deps));
    PrintedEmptyOnlyForBlank(deps);
    if deps != [] && deps != [""] && AllClean(deps) {
      CleanListsParseBack(deps);
    }
  }
}
