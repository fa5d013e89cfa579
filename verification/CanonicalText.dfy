/**
 The canonical texts that the lock manager hashes, and when they determine what
 they were made from.
 */
module CanonicalText {
  import opened Text
  import opened PluginResolution

  // ----- Metadata -----

  function Pair(metadata: map<string, string>, key: string): string
    requires key in metadata
  {
    key + ['='] + metadata[key]
  }

  /** One "key=value" per key, in the order of keys. */
  function Pairs(metadata: map<string, string>, keys: seq<string>): (r: seq<string>)
    requires forall k :: k in keys ==> k in metadata
    ensures |r| == |keys| && forall i :: 0 <= i < |r| ==> r[i] == Pair(metadata, keys[i])
  {
    seq(|keys|, i requires 0 <= i < |keys| => assert keys[i] in keys; Pair(metadata, keys[i]))
  }

  ghost function SortedPairs(metadata: map<string, string>): seq<string> {
    assert forall k :: k in SortedKeys(metadata.Keys) ==> k in Elems(SortedKeys(metadata.Keys));
    Pairs(metadata, SortedKeys(metadata.Keys))
  }

  ghost function MetadataText(metadata: map<string, string>): string {
    Join(SortedPairs(metadata), ";")
  }

  /** Keys without "=" and ";", values without ";". */
  ghost predicate CleanMetadata(metadata: map<string, string>) {
    forall k :: k in metadata ==> '=' !in k && ';' !in k && ';' !in metadata[k]
  }

  lemma CleanPairs(metadata: map<string, string>)
    requires CleanMetadata(metadata)
    ensures forall p :: p in SortedPairs(metadata) ==> ';' !in p && p != []
  {}

  /** Equal lists of pairs come from equal maps. */
  lemma PairsInjective(m: map<string, string>, m': map<string, string>)
    requires CleanMetadata(m) && CleanMetadata(m')
    requires SortedPairs(m) == SortedPairs(m')
    ensures m == m'
  {
    var keys, keys' := SortedKeys(m.Keys), SortedKeys(m'.Keys);
    assert |keys| == |SortedPairs(m)| == |SortedPairs(m')| == |keys'|;
    forall i | 0 <= i < |keys| ensures keys[i] == keys'[i] && m[keys[i]] == m'[keys'[i]] {
      assert keys[i] in Elems(keys) && keys'[i] in Elems(keys');
      assert SortedPairs(m)[i] == SortedPairs(m')[i];
      FieldInjective(keys[i], keys'[i], '=', m[keys[i]], m'[keys'[i]]);
    }
    assert keys == keys';
    assert m.Keys == Elems(keys) == m'.Keys;
    forall k | k in m ensures m[k] == m'[k] {
      assert k in Elems(keys);
    }
  }

  lemma MetadataTextInjective(m: map<string, string>, m': map<string, string>)
    requires CleanMetadata(m) && CleanMetadata(m')
    requires MetadataText(m) == MetadataText(m')
    ensures m == m'
  {
    CleanPairs(m);
    CleanPairs(m');
    assert SortedPairs(m) == [[]] ==> [] in SortedPairs(m);
    assert SortedPairs(m') == [[]] ==> [] in SortedPairs(m');
    JoinInjective(SortedPairs(m), SortedPairs(m'), ';');
    PairsInjective(m, m');
  }

  /** keys lists the map's keys in alphabetical order, and parts has "key=value" for each of them. */
  ghost predicate PairsInOrder(m: map<string, string>, keys: seq<string>, parts: seq<string>) {
    && |parts| == |keys| == |m| && Elems(keys) == m.Keys
    && (forall i, j :: 0 <= i < j < |keys| ==> Before(keys[i], keys[j]))
    && forall i :: 0 <= i < |keys| ==> keys[i] in m && parts[i] == keys[i] + "=" + m[keys[i]]
  }

  /** Splitting the text at ";" gives the pairs, in the order of their keys. */
  lemma MetadataReadsBack(m: map<string, string>)
    requires CleanMetadata(m) && m != map[]
    ensures exists keys :: PairsInOrder(m, keys, Split(MetadataText(m), ';'))
  {
    var keys := SortedKeys(m.Keys);
    NoDupSize(keys);
    CleanPairs(m);
    SplitJoin(SortedPairs(m), ';');
    assert Split(MetadataText(m), ';') == SortedPairs(m);
    forall i, j | 0 <= i < j < |keys| ensures Before(keys[i], keys[j]) {
      SortedKeysAlphabetical(m.Keys, i, j);
    }
    forall i | 0 <= i < |keys| ensures keys[i] in m && SortedPairs(m)[i] == keys[i] + "=" + m[keys[i]] {
      assert keys[i] in Elems(keys);
    }
    assert PairsInOrder(m, keys, SortedPairs(m));
  }

  lemma OneKeyText(key: string, value: string)
    ensures MetadataText(map[key := value]) == key + "=" + value
  {
    var m := map[key := value];
    var keys := SortedKeys(m.Keys);
    NoDupSize(keys);
    assert keys[0] in Elems(keys);
    assert SortedPairs(m) == [Pair(m, key)];
  }

  // ----- Which texts are ambiguous -----

  function CountChar(s: string, c: char): nat {
    if s == [] then 0 else (if s[0] == c then 1 else 0) + CountChar(s[1..], c)
  }

  lemma {:induction false} CountConcat(a: string, b: string, c: char)
    ensures CountChar(a + b, c) == CountChar(a, c) + CountChar(b, c)
  {
    if a == [] {
      assert a + b == b;
    } else {
      assert (a + b)[0] == a[0] && (a + b)[1..] == a[1..] + b;
      CountConcat(a[1..], b, c);
    }
  }

  lemma CountAround(a: string, c: char, b: string)
    ensures CountChar(a + [c] + b, c) == CountChar(a, c) + 1 + CountChar(b, c)
  {
    CountConcat(a + [c], b, c);
    CountConcat(a, [c], c);
    assert CountChar([c], c) == 1;
  }

  lemma {:induction false} CountZero(s: string, c: char)
    ensures CountChar(s, c) == 0 <==> c !in s
  {
    if s != [] {
      CountZero(s[1..], c);
      assert s == [s[0]] + s[1..];
    }
  }

  lemma {:induction false} TwoOccurrences(s: string, c: char) returns (i: nat, j: nat)
    requires CountChar(s, c) >= 2
    ensures i < j < |s| && s[i] == c && s[j] == c
  {
    var rest := s[1..];
    if s[0] == c {
      CountZero(rest, c);
      var k :| 0 <= k < |rest| && rest[k] == c;
      i, j := 0, k + 1;
    } else {
      var k, l := TwoOccurrences(rest, c);
      i, j := k + 1, l + 1;
    }
  }

  /** Every pair has its "=", so a text has at least one per pair. */
  lemma {:induction false} CountJoined(pairs: seq<string>)
    requires forall p :: p in pairs ==> CountChar(p, '=') >= 1
    ensures CountChar(Join(pairs, ";"), '=') >= |pairs|
  {
    if |pairs| > 1 {
      CountJoined(pairs[1..]);
      CountConcat(pairs[0] + ";", Join(pairs[1..], ";"), '=');
      CountConcat(pairs[0], ";", '=');
    }
  }

  lemma OnePairPerKey(m: map<string, string>)
    ensures |SortedPairs(m)| == |m| <= CountChar(MetadataText(m), '=')
  {
    NoDupSize(SortedKeys(m.Keys));
    forall p | p in SortedPairs(m) ensures CountChar(p, '=') >= 1 {
      var i :| 0 <= i < |SortedPairs(m)| && SortedPairs(m)[i] == p;
      var key := SortedKeys(m.Keys)[i];
      CountAround(key, '=', m[key]);
    }
    CountJoined(SortedPairs(m));
  }

  /** A map with one key is determined by its text if the text has one "=". */
  lemma OneKeyUnique(key: string, value: string, key': string, value': string)
    requires key + "=" + value == key' + "=" + value' && CountChar(key + "=" + value, '=') <= 1
    ensures key == key' && value == value'
  {
    CountAround(key, '=', value);
    CountAround(key', '=', value');
    CountZero(key, '=');
    CountZero(key', '=');
    FieldInjective(key, key', '=', value, value');
  }

  lemma OneKeyMap(m: map<string, string>) returns (key: string)
    requires |m| == 1
    ensures key in m && m == map[key := m[key]]
    ensures MetadataText(m) == key + "=" + m[key]
  {
    key :| key in m;
    assert m.Keys == {key} by {
      assert |m.Keys - {key}| == 0;
    }
    OneKeyText(key, m[key]);
  }

  lemma EmptyMapText()
    ensures MetadataText(map[]) == ""
  {
    NoDupSize(SortedKeys({}));
    assert SortedPairs(map[]) == [];
  }

  /** No other map has the same text. */
  ghost predicate OnlyMapWithItsText(m: map<string, string>) {
    forall m' :: MetadataText(m') == MetadataText(m) ==> m' == m
  }

  lemma FewEqualsDetermine(m: map<string, string>, m': map<string, string>)
    requires MetadataText(m') == MetadataText(m) && CountChar(MetadataText(m), '=') <= 1
    ensures m' == m
  {
    OnePairPerKey(m);
    OnePairPerKey(m');
    EmptyMapText();
    if |m| == 1 {
      var key := OneKeyMap(m);
      CountAround(key, '=', m[key]);
      var key' := OneKeyMap(m');
      OneKeyUnique(key, m[key], key', m'[key']);
    } else {
      assert m == map[];
    }
  }

  /** The one-key map that a text splits into at one of its "=". */
  lemma SplitsAt(text: string, i: nat)
    requires i < |text| && text[i] == '='
    ensures MetadataText(map[text[..i] := text[i+1..]]) == text
  {
    OneKeyText(text[..i], text[i+1..]);
  }

  lemma SplitsDiffer(text: string, i: nat, j: nat)
    requires i < j < |text|
    ensures map[text[..i] := text[i+1..]] != map[text[..j] := text[j+1..]]
  {
    assert |text[..i]| != |text[..j]|;
    assert text[..i] in map[text[..i] := text[i+1..]];
  }

  lemma OtherMapWithText(m: map<string, string>, text: string) returns (m': map<string, string>)
    requires CountChar(text, '=') >= 2
    ensures m' != m && MetadataText(m') == text
  {
    var i, j := TwoOccurrences(text, '=');
    SplitsDiffer(text, i, j);
    m' := map[text[..i] := text[i+1..]];
    if m' == m {
      m' := map[text[..j] := text[j+1..]];
      SplitsAt(text, j);
    } else {
      SplitsAt(text, i);
    }
  }

  /**
   A map is the only one with its text exactly when the text has at most one "=": every other text
   splits at any of its "=" into a key and a value, whatever it was made from.
   */
  lemma DeterminedByText(m: map<string, string>)
    ensures OnlyMapWithItsText(m) <==> CountChar(MetadataText(m), '=') <= 1
  {
    var text := MetadataText(m);
    if CountChar(text, '=') <= 1 {
      forall m' | MetadataText(m') == text ensures m' == m {
        FewEqualsDetermine(m, m');
      }
    } else {
      var m' := OtherMapWithText(m, text);
    }
  }

  /** In terms of the map: it has at most one pair, and that pair has no "=" of its own. */
  lemma DeterminedMaps(m: map<string, string>)
    ensures OnlyMapWithItsText(m) <==> |m| <= 1 && forall k :: k in m ==> '=' !in k && '=' !in m[k]
  {
    DeterminedByText(m);
    OnePairPerKey(m);
    EmptyMapText();
    if |m| == 1 {
      var key := OneKeyMap(m);
      CountAround(key, '=', m[key]);
      CountZero(key, '=');
      CountZero(m[key], '=');
    }
  }

  /** An instance: a key with "=" can be confused with a value that has one. */
  lemma MetadataTextConfusesEquals()
    ensures MetadataText(map["a=b" := "c"]) == MetadataText(map["a" := "b=c"])
  {
    OneKeyText("a=b", "c");
    OneKeyText("a", "b=c");
  }

  // ----- Plugins -----

  ghost function PluginText(p: Plugin): string {
    p.name + ['|'] + (p.version + ['|'] + (p.repository + ['|'] + (p.path + ['|']
    + (Join(p.dependencies, ",") + ['|'] + MetadataText(p.metadata)))))
  }

  /** No separators in the fields; a dependency list of one empty name prints like no dependencies. */
  ghost predicate CleanPlugin(p: Plugin) {
    && '|' !in p.name && '|' !in p.version && '|' !in p.repository && '|' !in p.path
    && (forall d :: d in p.dependencies ==> '|' !in d && ',' !in d) && p.dependencies != [""]
    && CleanMetadata(p.metadata)
  }

  /** The fields that go into the text: all but the description. */
  predicate SameLockedFields(p: Plugin, q: Plugin) {
    && p.name == q.name && p.version == q.version && p.repository == q.repository && p.path == q.path
    && p.dependencies == q.dependencies && p.metadata == q.metadata
  }

  lemma {:induction false} JoinPlain(parts: seq<string>, c: char)
    requires c != ',' && forall p :: p in parts ==> c !in p
    ensures c !in Join(parts, ",")
  {
    if |parts| > 1 {
      JoinPlain(parts[1..], c);
    }
  }

  /** The text determines exactly the locked fields. */
  lemma PluginTextInjective(p: Plugin, q: Plugin)
    requires CleanPlugin(p) && CleanPlugin(q)
    ensures PluginText(p) == PluginText(q) <==> SameLockedFields(p, q)
  {
    if PluginText(p) == PluginText(q) {
      var dp, dq := Join(p.dependencies, ","), Join(q.dependencies, ",");
      var m, m' := MetadataText(p.metadata), MetadataText(q.metadata);
      JoinPlain(p.dependencies, '|');
      JoinPlain(q.dependencies, '|');
      var tp, tq := dp + ['|'] + m, dq + ['|'] + m';
      var up, uq := p.path + ['|'] + tp, q.path + ['|'] + tq;
      var vp, vq := p.repository + ['|'] + up, q.repository + ['|'] + uq;
      FieldInjective(p.name, q.name, '|', p.version + ['|'] + vp, q.version + ['|'] + vq);
      FieldInjective(p.version, q.version, '|', vp, vq);
      FieldInjective(p.repository, q.repository, '|', up, uq);
      FieldInjective(p.path, q.path, '|', tp, tq);
      FieldInjective(dp, dq, '|', m, m');
      JoinInjective(p.dependencies, q.dependencies, ',');
      MetadataTextInjective(p.metadata, q.metadata);
    }
  }

  /** Splitting the text at "|" gives the fields in their order; what follows the fifth "|" is the metadata. */
  lemma PluginTextReadsBack(p: Plugin)
    requires '|' !in p.name && '|' !in p.version && '|' !in p.repository && '|' !in p.path
    requires forall d :: d in p.dependencies ==> '|' !in d && ',' !in d
    ensures var fields := Split(PluginText(p), '|');
      && |fields| >= 6
      && fields[..4] == [p.name, p.version, p.repository, p.path]
      && (if p.dependencies == [] then fields[4] == [] else Split(fields[4], ',') == p.dependencies)
      && Join(fields[5..], "|") == MetadataText(p.metadata)
  {
    var deps, metadata := Join(p.dependencies, ","), MetadataText(p.metadata);
    JoinPlain(p.dependencies, '|');
    var text4 := deps + ['|'] + metadata;
    var text3 := p.path + ['|'] + text4;
    var text2 := p.repository + ['|'] + text3;
    var text1 := p.version + ['|'] + text2;
    SplitAtFirst(p.name, '|', text1);
    SplitAtFirst(p.version, '|', text2);
    SplitAtFirst(p.repository, '|', text3);
    SplitAtFirst(p.path, '|', text4);
    SplitAtFirst(deps, '|', metadata);
    FiveFields(p.name, p.version, p.repository, p.path, deps, Split(metadata, '|'));
    JoinSplit(metadata, '|');
    if p.dependencies != [] {
      SplitJoin(p.dependencies, ',');
    }
  }

  lemma FiveFields(a: string, b: string, c: string, d: string, e: string, rest: seq<string>)
    ensures var fields := [a] + ([b] + ([c] + ([d] + ([e] + rest))));
      && |fields| == 5 + |rest| && fields[..4] == [a, b, c, d] && fields[4] == e && fields[5..] == rest
  {}

  // ----- Lockfile contents -----

  datatype LockEntry = LockEntry(
    name: string,
    version: string,
    sha: string,
    repository: string,
    path: string,
    dependencies: seq<string>,
    metadata: map<string, string>)

  datatype LockMetadata = LockMetadata(contentHash: string, timestamp: string, generator: string, extra: map<string, string>)

  datatype Lockfile = Lockfile(version: string, plugins: map<string, LockEntry>, metadata: LockMetadata)

  function EntryLine(plugins: map<string, LockEntry>, key: string): string
    requires key in plugins
  {
    "plugin:" + (key + ['|'] + (plugins[key].version + ['|'] + plugins[key].sha))
  }

  function EntryLines(plugins: map<string, LockEntry>, keys: seq<string>): (r: seq<string>)
    requires forall k :: k in keys ==> k in plugins
    ensures |r| == |keys| && forall i :: 0 <= i < |r| ==> r[i] == EntryLine(plugins, keys[i])
  {
    seq(|keys|, i requires 0 <= i < |keys| => assert keys[i] in keys; EntryLine(plugins, keys[i]))
  }

  ghost function ContentLines(lf: Lockfile): seq<string> {
    assert forall k :: k in SortedKeys(lf.plugins.Keys) ==> k in Elems(SortedKeys(lf.plugins.Keys));
    ["version:" + lf.version] + EntryLines(lf.plugins, SortedKeys(lf.plugins.Keys))
  }

  ghost function ContentText(lf: Lockfile): string {
    Terminated(ContentLines(lf))
  }

  ghost predicate CleanContent(lf: Lockfile) {
    && '\n' !in lf.version
    && forall k :: k in lf.plugins ==>
         && '\n' !in k && '\n' !in lf.plugins[k].version && '\n' !in lf.plugins[k].sha
         && '|' !in k && '|' !in lf.plugins[k].version
  }

  /** What the text is made from: for every key the version and the SHA. */
  function ContentMap(lf: Lockfile): map<string, (string, string)> {
    map k | k in lf.plugins :: (lf.plugins[k].version, lf.plugins[k].sha)
  }

  lemma KeysAreKeys(plugins: map<string, LockEntry>)
    ensures forall k :: k in SortedKeys(plugins.Keys) <==> k in plugins
  {}

  lemma CleanEntryLines(plugins: map<string, LockEntry>, keys: seq<string>)
    requires forall k :: k in keys ==> k in plugins
    requires forall k :: k in plugins ==> '\n' !in k && '\n' !in plugins[k].version && '\n' !in plugins[k].sha
    ensures forall l :: l in EntryLines(plugins, keys) ==> '\n' !in l
  {}

  lemma CleanLines(lf: Lockfile)
    requires CleanContent(lf)
    ensures forall l :: l in ContentLines(lf) ==> '\n' !in l
  {
    KeysAreKeys(lf.plugins);
    CleanEntryLines(lf.plugins, SortedKeys(lf.plugins.Keys));
    assert '\n' !in "version:" + lf.version;
  }

  /** keys lists the plugins' keys in alphabetical order; lines has the version, the line of each key, and an empty rest. */
  ghost predicate LinesInOrder(lf: Lockfile, keys: seq<string>, lines: seq<string>) {
    && |lines| == |keys| + 2 && Elems(keys) == lf.plugins.Keys
    && (forall i, j :: 0 <= i < j < |keys| ==> Before(keys[i], keys[j]))
    && lines[0] == "version:" + lf.version && lines[|keys|+1] == []
    && forall i :: 0 <= i < |keys| ==>
         && keys[i] in lf.plugins
         && lines[i+1] == "plugin:" + keys[i] + "|" + lf.plugins[keys[i]].version + "|" + lf.plugins[keys[i]].sha
  }

  /** Splitting the text at line ends gives the version and the plugins in the order of their keys. */
  lemma ContentReadsBack(lf: Lockfile)
    requires CleanContent(lf)
    ensures exists keys :: LinesInOrder(lf, keys, Split(ContentText(lf), '\n'))
  {
    var keys := SortedKeys(lf.plugins.Keys);
    CleanLines(lf);
    SplitTerminated(ContentLines(lf));
    var lines := Split(ContentText(lf), '\n');
    assert lines == ContentLines(lf) + [[]];
    forall i, j | 0 <= i < j < |keys| ensures Before(keys[i], keys[j]) {
      SortedKeysAlphabetical(lf.plugins.Keys, i, j);
    }
    forall i | 0 <= i < |keys|
      ensures keys[i] in lf.plugins
      ensures lines[i+1] == "plugin:" + keys[i] + "|" + lf.plugins[keys[i]].version + "|" + lf.plugins[keys[i]].sha
    {
      assert keys[i] in Elems(keys);
      EntryLineText(lf.plugins, keys[i]);
    }
    assert LinesInOrder(lf, keys, lines);
  }

  lemma EntryLineText(plugins: map<string, LockEntry>, key: string)
    requires key in plugins
    ensures EntryLine(plugins, key) == "plugin:" + key + "|" + plugins[key].version + "|" + plugins[key].sha
  {}

  lemma EntryLineInjective(p: map<string, LockEntry>, q: map<string, LockEntry>, k: string, k': string)
    requires k in p && k' in q && EntryLine(p, k) == EntryLine(q, k')
    requires '|' !in k && '|' !in k' && '|' !in p[k].version && '|' !in q[k'].version
    ensures k == k' && p[k].version == q[k'].version && p[k].sha == q[k'].sha
  {
    var x, y := p[k].version + ['|'] + p[k].sha, q[k'].version + ['|'] + q[k'].sha;
    assert EntryLine(p, k)[7..] == k + ['|'] + x && EntryLine(q, k')[7..] == k' + ['|'] + y;
    FieldInjective(k, k', '|', x, y);
    FieldInjective(p[k].version, q[k'].version, '|', p[k].sha, q[k'].sha);
  }

  lemma EntryLinesInjective(p: map<string, LockEntry>, keys: seq<string>, p': map<string, LockEntry>, keys': seq<string>)
    requires (forall k :: k in keys ==> k in p) && (forall k :: k in keys' ==> k in p')
    requires forall k :: k in p ==> '|' !in k && '|' !in p[k].version
    requires forall k :: k in p' ==> '|' !in k && '|' !in p'[k].version
    requires EntryLines(p, keys) == EntryLines(p', keys')
    ensures keys == keys'
    ensures forall k :: k in keys ==> p[k].version == p'[k].version && p[k].sha == p'[k].sha
  {
    assert |keys| == |EntryLines(p, keys)| == |EntryLines(p', keys')| == |keys'|;
    forall i | 0 <= i < |keys|
      ensures keys[i] == keys'[i]
      ensures p[keys[i]].version == p'[keys'[i]].version && p[keys[i]].sha == p'[keys'[i]].sha
    {
      assert keys[i] in keys && keys'[i] in keys';
      assert EntryLines(p, keys)[i] == EntryLines(p', keys')[i];
      EntryLineInjective(p, p', keys[i], keys'[i]);
    }
  }

  lemma HeadLineInjective(v: string, lines: seq<string>, v': string, lines': seq<string>)
    requires ["version:" + v] + lines == ["version:" + v'] + lines'
    ensures v == v' && lines == lines'
  {
    var a, b := ["version:" + v] + lines, ["version:" + v'] + lines';
    assert a[0] == b[0] && a[1..] == lines && b[1..] == lines';
    assert a[0][8..] == v && b[0][8..] == v';
  }

  lemma ContentLinesInjective(lf: Lockfile, lf': Lockfile)
    requires CleanContent(lf) && CleanContent(lf') && ContentLines(lf) == ContentLines(lf')
    ensures lf.version == lf'.version && ContentMap(lf) == ContentMap(lf')
  {
    KeysAreKeys(lf.plugins);
    KeysAreKeys(lf'.plugins);
    var keys, keys' := SortedKeys(lf.plugins.Keys), SortedKeys(lf'.plugins.Keys);
    HeadLineInjective(lf.version, EntryLines(lf.plugins, keys), lf'.version, EntryLines(lf'.plugins, keys'));
    EntryLinesInjective(lf.plugins, keys, lf'.plugins, keys');
    SameContentMap(lf, lf', keys);
  }

  lemma SameContentMap(lf: Lockfile, lf': Lockfile, keys: seq<string>)
    requires forall k :: k in keys <==> k in lf.plugins
    requires forall k :: k in keys <==> k in lf'.plugins
    requires forall k :: k in keys ==>
      lf.plugins[k].version == lf'.plugins[k].version && lf.plugins[k].sha == lf'.plugins[k].sha
    ensures ContentMap(lf) == ContentMap(lf')
  {}

  /** The text determines, and is determined by, the version and the map from keys to (version, SHA). */
  lemma ContentTextInjective(lf: Lockfile, lf': Lockfile)
    requires CleanContent(lf) && CleanContent(lf')
    ensures ContentText(lf) == ContentText(lf') <==> lf.version == lf'.version && ContentMap(lf) == ContentMap(lf')
  {
    if ContentText(lf) == ContentText(lf') {
      CleanLines(lf);
      CleanLines(lf');
      TerminatedInjective(ContentLines(lf), ContentLines(lf'));
      ContentLinesInjective(lf, lf');
    }
    if lf.version == lf'.version && ContentMap(lf) == ContentMap(lf') {
      SameContentSameText(lf, lf');
    }
  }

  lemma SameContentSameText(lf: Lockfile, lf': Lockfile)
    requires lf.version == lf'.version && ContentMap(lf) == ContentMap(lf')
    ensures ContentText(lf) == ContentText(lf')
  {
    assert lf.plugins.Keys == ContentMap(lf).Keys == ContentMap(lf').Keys == lf'.plugins.Keys;
    var keys := SortedKeys(lf.plugins.Keys);
    forall i | 0 <= i < |keys|
      ensures keys[i] in lf.plugins && EntryLine(lf.plugins, keys[i]) == EntryLine(lf'.plugins, keys[i])
    {
      assert keys[i] in Elems(keys);
      assert ContentMap(lf)[keys[i]] == ContentMap(lf')[keys[i]];
    }
    assert EntryLines(lf.plugins, keys) == EntryLines(lf'.plugins, keys);
  }
}
