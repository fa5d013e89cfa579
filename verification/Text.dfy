/**
 Strings as the program uses them: the order that sort.Strings sorts by, sorted
 key lists, and joining and splitting on a separator.

 Strings are sequences of Unicode scalar values. Comparing them element by element
 gives the same order as comparing their UTF-8 encodings byte by byte.
 */
module Text {

  // ----- Order -----

  predicate Less(a: string, b: string) {
    b != [] && (a == [] || a[0] < b[0] || (a[0] == b[0] && Less(a[1..], b[1..])))
  }

  lemma LessIrreflexive(a: string)
    ensures !Less(a, a)
  {}

  lemma {:induction false} LessTotal(a: string, b: string)
    ensures a == b || Less(a, b) || Less(b, a)
  {
    if a != [] && b != [] && a[0] == b[0] {
      LessTotal(a[1..], b[1..]);
      assert a == [a[0]] + a[1..] && b == [b[0]] + b[1..];
    }
  }

  lemma LessAsymmetric(a: string, b: string)
    requires Less(a, b)
    ensures !Less(b, a)
  {}

  /** "Not after" is transitive. */
  lemma NotAfterTransitive(a: string, b: string, c: string)
    requires !Less(b, a) && !Less(c, b)
    ensures !Less(c, a)
  {}

  /** Alphabetically: a is a proper prefix of b, or has the smaller character at the first difference. */
  ghost predicate Before(a: string, b: string) {
    a < b || exists i :: SmallerCharAt(a, b, i)
  }

  ghost predicate SmallerCharAt(a: string, b: string, i: int) {
    0 <= i < |a| && i < |b| && a[..i] == b[..i] && a[i] < b[i]
  }

  lemma SmallerCharStep(a: string, b: string, i: int)
    requires a != [] && b != []
    ensures SmallerCharAt(a, b, i)
            <==> if i == 0 then a[0] < b[0] else a[0] == b[0] && SmallerCharAt(a[1..], b[1..], i - 1)
  {
    if 0 < i < |a| && i < |b| {
      assert a[..i] == [a[0]] + a[1..][..i-1] && b[..i] == [b[0]] + b[1..][..i-1];
    }
  }

  lemma {:induction false} LessIsBefore(a: string, b: string)
    ensures Less(a, b) <==> Before(a, b)
  {
    if a != [] && b != [] {
      LessIsBefore(a[1..], b[1..]);
      assert a == [a[0]] + a[1..] && b == [b[0]] + b[1..];
      forall i ensures SmallerCharAt(a, b, i)
        <==> if i == 0 then a[0] < b[0] else a[0] == b[0] && SmallerCharAt(a[1..], b[1..], i - 1)
      {
        SmallerCharStep(a, b, i);
      }
      if i :| SmallerCharAt(a[1..], b[1..], i) {
        assert a[0] == b[0] ==> SmallerCharAt(a, b, i + 1);
      }
      assert a[0] < b[0] ==> SmallerCharAt(a, b, 0);
    }
  }

  // ----- Sorting -----

  predicate Sorted(s: seq<string>) {
    forall i, j {:trigger Less(s[j], s[i])} :: 0 <= i < j < |s| ==> !Less(s[j], s[i])
  }

  lemma SortedCons(x: string, s: seq<string>)
    requires Sorted(s) && (s != [] ==> !Less(s[0], x))
    ensures Sorted([x] + s)
    ensures forall y :: y in s ==> !Less(y, x)
  {
    forall j | 0 <= j < |s| ensures !Less(s[j], x) {
      if j > 0 { NotAfterTransitive(x, s[0], s[j]); }
    }
  }

  function Insert(x: string, s: seq<string>): (r: seq<string>)
    requires Sorted(s)
    ensures multiset(r) == multiset{x} + multiset(s)
    ensures Sorted(r)
    ensures r[0] == x || (s != [] && r[0] == s[0])
  {
    if s == [] then [x]
    else if !Less(s[0], x) then
      SortedCons(x, s);
      [x] + s
    else
      assert s == [s[0]] + s[1..];
      LessAsymmetric(s[0], x);
      SortedCons(s[0], Insert(x, s[1..]));
      [s[0]] + Insert(x, s[1..])
  }

  /** sort.Strings: a sorted permutation. */
  function Sort(s: seq<string>): (r: seq<string>)
    ensures multiset(r) == multiset(s)
    ensures Sorted(r)
  {
    if s == [] then [] else
      assert s == [s[0]] + s[1..];
      Insert(s[0], Sort(s[1..]))
  }

  predicate NoDup<T(==)>(s: seq<T>) {
    forall i, j :: 0 <= i < j < |s| ==> s[i] != s[j]
  }

  function Elems<T>(s: seq<T>): set<T> {
    set x | x in s
  }

  /** A set of strings has just one sorted, repetition-free listing. */
  lemma {:induction false} SortedUnique(s: seq<string>, t: seq<string>)
    requires Sorted(s) && NoDup(s) && Sorted(t) && NoDup(t)
    requires Elems(s) == Elems(t)
    ensures s == t
  {
    assert (s != [] ==> s[0] in Elems(s)) && (t != [] ==> t[0] in Elems(t));
    if s != [] && t != [] {
      assert s[0] in Elems(t) && t[0] in Elems(s);
      var i :| 0 <= i < |t| && t[i] == s[0];
      var j :| 0 <= j < |s| && s[j] == t[0];
      LessTotal(s[0], t[0]);
      assert s[0] == t[0];
      assert Elems(s[1..]) == Elems(s) - {s[0]};
      assert Elems(t[1..]) == Elems(t) - {t[0]};
      SortedUnique(s[1..], t[1..]);
      assert s == [s[0]] + s[1..] && t == [t[0]] + t[1..];
    }
  }

  // ----- Cardinalities -----

  lemma {:induction false} NoDupSize<T>(s: seq<T>)
    requires NoDup(s)
    ensures |Elems(s)| == |s|
  {
    if s != [] {
      NoDupSize(s[1..]);
      assert Elems(s) == {s[0]} + Elems(s[1..]);
    }
  }

  lemma {:induction false} SubsetSize<T>(a: set<T>, b: set<T>)
    requires a <= b
    ensures |a| <= |b|
    ensures |a| == |b| ==> a == b
  {
    assert b == a + (b - a);
  }

  /** A repetition-free list in which every element occurs once as a multiset. */
  lemma {:induction false} NoDupMultiset<T>(s: seq<T>)
    requires NoDup(s)
    ensures multiset(s) == multiset(Elems(s))
  {
    if s != [] {
      NoDupMultiset(s[1..]);
      assert s == [s[0]] + s[1..];
      assert Elems(s) == {s[0]} + Elems(s[1..]);
    }
  }

  /** Permutations keep freedom from repetition. */
  lemma {:induction false} MultisetNoDup<T>(s: seq<T>)
    requires forall x :: multiset(s)[x] <= 1
    ensures NoDup(s)
  {
    forall i, j | 0 <= i < j < |s| ensures s[i] != s[j] {
      assert s == s[..j] + [s[j]] + s[j+1..];
      assert s[i] in s[..j];
      assert multiset(s)[s[j]] >= multiset(s[..j])[s[j]] + 1;
    }
  }

  // ----- Joining and splitting -----

  /** strings.Join */
  function Join(parts: seq<string>, sep: string): string {
    if parts == [] then []
    else if |parts| == 1 then parts[0]
    else parts[0] + sep + Join(parts[1..], sep)
  }

  lemma {:induction false} JoinOneMore(parts: seq<string>, sep: string, last: string)
    ensures Join(parts + [last], sep) == if parts == [] then last else Join(parts, sep) + sep + last
  {
    var longer := parts + [last];
    if parts != [] {
      assert longer[1..] == parts[1..] + [last];
      JoinOneMore(parts[1..], sep, last);
      assert parts[0] + sep + (Join(parts[1..], sep) + sep + last) == parts[0] + sep + Join(parts[1..], sep) + sep + last;
    }
  }

  lemma JoinPrefix(parts: seq<string>, sep: string, i: nat)
    requires i < |parts|
    ensures Join(parts[..i+1], sep) == if i == 0 then parts[0] else Join(parts[..i], sep) + sep + parts[i]
  {
    assert parts[..i+1] == parts[..i] + [parts[i]];
    JoinOneMore(parts[..i], sep, parts[i]);
  }

  /** strings.Split with a separator of one character */
  function Split(s: string, c: char): (r: seq<string>)
    ensures |r| > 0
  {
    if s == [] then [[]]
    else if s[0] == c then [[]] + Split(s[1..], c)
    else
      var r := Split(s[1..], c);
      [[s[0]] + r[0]] + r[1..]
  }

  lemma {:induction false} SplitPlain(a: string, c: char)
    requires c !in a
    ensures Split(a, c) == [a]
  {
    if a != [] {
      SplitPlain(a[1..], c);
      assert a == [a[0]] + a[1..];
    }
  }

  lemma {:induction false} SplitAtFirst(a: string, c: char, b: string)
    requires c !in a
    ensures Split(a + [c] + b, c) == [a] + Split(b, c)
  {
    var s := a + [c] + b;
    if a == [] {
      assert s[1..] == b;
    } else {
      assert s[1..] == a[1..] + [c] + b;
      SplitAtFirst(a[1..], c, b);
      assert a == [a[0]] + a[1..];
    }
  }

  /** Text before the first separator, and text after it, can be read back. */
  lemma FieldInjective(a: string, b: string, c: char, x: string, y: string)
    requires c !in a && c !in b
    requires a + [c] + x == b + [c] + y
    ensures a == b && x == y
  {
    SplitAtFirst(a, c, x);
    SplitAtFirst(b, c, y);
    assert ([a] + Split(x, c))[0] == a && ([b] + Split(y, c))[0] == b;
    assert (a + [c] + x)[|a|+1..] == x && (b + [c] + y)[|b|+1..] == y;
  }

  lemma {:induction false} SplitJoin(parts: seq<string>, c: char)
    requires parts != []
    requires forall p :: p in parts ==> c !in p
    ensures Split(Join(parts, [c]), c) == parts
  {
    if |parts| == 1 {
      SplitPlain(parts[0], c);
      assert parts == [parts[0]];
    } else {
      SplitJoin(parts[1..], c);
      SplitAtFirst(parts[0], c, Join(parts[1..], [c]));
      assert parts == [parts[0]] + parts[1..];
    }
  }

  /** Joining the parts of a split gives the text back. */
  lemma {:induction false} JoinSplit(s: string, c: char)
    ensures Join(Split(s, c), [c]) == s
  {
    if s != [] {
      JoinSplit(s[1..], c);
      assert s == [s[0]] + s[1..];
      var rest := Split(s[1..], c);
      if s[0] == c {
        assert ([[]] + rest)[1..] == rest;
      } else {
        assert Split(s, c)[1..] == rest[1..];
        assert rest == [rest[0]] + rest[1..];
      }
    }
  }

  /** Joining separator-free parts is injective, except that [] and [""] both give "". */
  lemma JoinInjective(a: seq<string>, b: seq<string>, c: char)
    requires forall p :: p in a ==> c !in p
    requires forall p :: p in b ==> c !in p
    requires a != [[]] && b != [[]]
    requires Join(a, [c]) == Join(b, [c])
    ensures a == b
  {
    if a != [] { SplitJoin(a, c); }
    if b != [] { SplitJoin(b, c); }
    assert Split([], c) == [[]];
  }

  /** The parts of a split hold no separator. */
  lemma {:induction false} SplitPartsPlain(s: string, c: char)
    ensures forall p :: p in Split(s, c) ==> c !in p
  {
    if s != [] {
      SplitPartsPlain(s[1..], c);
    }
  }

  // ----- Sorted keys -----

  /** The members of a set in sorted order. */
  ghost function SortedKeys(keys: set<string>): (r: seq<string>)
    ensures Sorted(r) && NoDup(r) && Elems(r) == keys
  {
    if keys == {} then []
    else
      var x :| x in keys;
      var rest := SortedKeys(keys - {x});
      InsertNew(x, rest);
      Insert(x, rest)
  }

  lemma InsertNew(x: string, s: seq<string>)
    requires Sorted(s) && NoDup(s) && x !in s
    ensures NoDup(Insert(x, s)) && Elems(Insert(x, s)) == Elems(s) + {x}
  {
    var r := Insert(x, s);
    NoDupMultiset(s);
    forall y ensures multiset(r)[y] <= 1 && (y in r <==> y in multiset(r)) {
      assert multiset(r)[y] == multiset{x}[y] + multiset(s)[y];
    }
    MultisetNoDup(r);
  }

  lemma SameMultiset(r: seq<string>, s: seq<string>)
    requires NoDup(s) && multiset(r) == multiset(s)
    ensures NoDup(r) && Elems(r) == Elems(s)
  {
    NoDupMultiset(s);
    forall y ensures multiset(r)[y] <= 1 && (y in r <==> y in s) {
      assert y in r <==> y in multiset(r);
    }
    MultisetNoDup(r);
  }

  /** Collecting keys in any order and sorting them gives the sorted keys. */
  lemma SortGivesSortedKeys(keys: seq<string>)
    requires NoDup(keys)
    ensures Sort(keys) == SortedKeys(Elems(keys))
  {
    SameMultiset(Sort(keys), keys);
    SortedUnique(Sort(keys), SortedKeys(Elems(keys)));
  }

  lemma SortedKeysAlphabetical(keys: set<string>, i: nat, j: nat)
    requires i < j < |SortedKeys(keys)|
    ensures Before(SortedKeys(keys)[i], SortedKeys(keys)[j])
  {
    LessTotal(SortedKeys(keys)[i], SortedKeys(keys)[j]);
    LessIsBefore(SortedKeys(keys)[i], SortedKeys(keys)[j]);
  }

  // ----- Lines -----

  /** Each line followed by a newline. */
  function Terminated(lines: seq<string>): string {
    if lines == [] then [] else lines[0] + ['\n'] + Terminated(lines[1..])
  }

  lemma {:induction false} SplitTerminated(lines: seq<string>)
    requires forall l :: l in lines ==> '\n' !in l
    ensures Split(Terminated(lines), '\n') == lines + [[]]
  {
    if lines != [] {
      SplitTerminated(lines[1..]);
      SplitAtFirst(lines[0], '\n', Terminated(lines[1..]));
      assert lines == [lines[0]] + lines[1..];
    }
  }

  lemma {:induction false} TerminatedOneMore(lines: seq<string>, line: string)
    ensures Terminated(lines + [line]) == Terminated(lines) + line + ['\n']
  {
    var longer := lines + [line];
    if lines == [] {
      assert longer[1..] == [];
      assert Terminated(longer[1..]) == [];
    } else {
      assert longer[1..] == lines[1..] + [line];
      TerminatedOneMore(lines[1..], line);
    }
  }

  lemma TerminatedPrefix(lines: seq<string>, i: nat)
    requires i < |lines|
    ensures Terminated(lines[..i+1]) == Terminated(lines[..i]) + lines[i] + ['\n']
  {
    assert lines[..i+1] == lines[..i] + [lines[i]];
    TerminatedOneMore(lines[..i], lines[i]);
  }

  lemma {:induction false} TerminatedInjective(a: seq<string>, b: seq<string>)
    requires forall l :: l in a ==> '\n' !in l
    requires forall l :: l in b ==> '\n' !in l
    requires Terminated(a) == Terminated(b)
    ensures a == b
  {
    if a != [] && b != [] {
      FieldInjective(a[0], b[0], '\n', Terminated(a[1..]), Terminated(b[1..]));
      TerminatedInjective(a[1..], b[1..]);
      assert a == [a[0]] + a[1..] && b == [b[0]] + b[1..];
    }
  }
}
