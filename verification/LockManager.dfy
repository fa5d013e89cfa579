/**
 The lock manager: generating a lockfile for the active plugins, checking its hash,
 and telling whether the saved one is up to date.

 SHA-256 followed by hex encoding is a parameter, hash. The file on disk is the field
 file; writing a lockfile as YAML and reading it back is taken to change nothing. Whether
 marshalling, writing and reading succeed, and what a failed write leaves, are parameters.
 */
module LockManager {
  import opened Results
  import opened Maps
  import opened Text
  import opened Graph
  import opened PluginRegistry
  import opened PluginResolution
  import opened CanonicalText

  /** Different texts have different hashes, and a hash is free of the separators of the content text. */
  ghost predicate HashIdeal(hash: string -> string) {
    && (forall a, b :: hash(a) == hash(b) ==> a == b)
    && (forall a :: '|' !in hash(a) && '\n' !in hash(a))
  }

  ghost function Entry(hash: string -> string, p: Plugin): LockEntry {
    LockEntry(p.name, p.version, hash(PluginText(p)), p.repository, p.path, p.dependencies, p.metadata)
  }

  ghost function Entries(hash: string -> string, plugins: Plugins, needed: set<string>): map<string, LockEntry>
    requires needed <= plugins.Keys
  {
    map name | name in needed :: Entry(hash, plugins[name])
  }

  lemma EntriesOneMore(hash: string -> string, plugins: Plugins, order: seq<string>, i: nat)
    requires i < |order| && order[i] in plugins && Elems(order[..i]) <= plugins.Keys
    ensures Elems(order[..i+1]) == Elems(order[..i]) + {order[i]}
    ensures Entries(hash, plugins, Elems(order[..i+1]))
            == Entries(hash, plugins, Elems(order[..i]))[order[i] := Entry(hash, plugins[order[i]])]
  {
    assert order[..i+1] == order[..i] + [order[i]];
  }

  const EMPTY_METADATA := LockMetadata("", "", "nexus", map[])

  /** The lockfile of a set of plugins. */
  ghost function Locked(hash: string -> string, plugins: Plugins, needed: set<string>): Lockfile
    requires needed <= plugins.Keys
  {
    var lf := Lockfile("1.0", Entries(hash, plugins, needed), EMPTY_METADATA);
    lf.(metadata := EMPTY_METADATA.(contentHash := hash(ContentText(lf))))
  }

  /** The generated lockfile, or the resolver's error. */
  ghost predicate Generated(hash: string -> string, plugins: Plugins, active: seq<string>, r: Result<Lockfile, Resolution>) {
    match r
    case Success(lf) =>
      && AllNeededRegistered(plugins, active) && !NeededCycle(plugins, active)
      && lf == Locked(hash, plugins, NeededPlugins(plugins, active))
    case Failure(e) => !e.Resolved? && Answers(plugins, active, e)
  }

  /** The file at the lockfile's path; a failed write can leave one that does not parse, or another one. */
  datatype File = Missing | Unparsable | Holding(lf: Lockfile)

  datatype SaveError = MarshalFailed | WriteFailed

  datatype LoadError = NotFound | ReadFailed | ParseFailed

  class Manager {
    const hash: string -> string
    var file: File

    constructor (hash: string -> string, file: File)
      ensures this.hash == hash && this.file == file
    {
      this.hash := hash;
      this.file := file;
    }

    /** A failed write leaves the file as given; a failed marshalling leaves it alone. */
    method SaveLockfile(lf: Lockfile, marshalOk: bool, failedWrite: Option<File>) returns (err: Option<SaveError>)
      modifies this
      ensures err == (if !marshalOk then Some(MarshalFailed) else if failedWrite.Some? then Some(WriteFailed) else None)
      ensures err.None? ==> file == Holding(lf)
      ensures err == Some(MarshalFailed) ==> file == old(file)
      ensures err == Some(WriteFailed) ==> file == failedWrite.value
    {
      if !marshalOk {
        return Some(MarshalFailed);
      }
      if failedWrite.Some? {
        file := failedWrite.value;
        return Some(WriteFailed);
      }
      file := Holding(lf);
      err := None;
    }

    method LoadLockfile(readOk: bool) returns (r: Result<Lockfile, LoadError>)
      ensures r.Success? <==> file.Holding? && readOk
      ensures r.Success? ==> r.value == file.lf
      ensures r == Failure(NotFound) <==> file.Missing?
      ensures r == Failure(ReadFailed) <==> !file.Missing? && !readOk
    {
      if file.Missing? {
        return Failure(NotFound);
      }
      if !readOk {
        return Failure(ReadFailed);
      }
      match file {
        case Holding(lf) => return Success(lf);
        case _ => return Failure(ParseFailed);
      }
    }

    method CanonicalizeMetadata(metadata: map<string, string>) returns (text: string)
      ensures text == MetadataText(metadata)
    {
      if |metadata| == 0 {
        NoDupSize(SortedKeys(metadata.Keys));
        return "";
      }
      var keys := CollectSortedKeys(metadata.Keys);
      assert forall k :: k in keys ==> k in Elems(keys);
      text := WritePairs(metadata, keys);
    }

    /** The writing loop: the pairs of the keys, separated by ";". */
    static method WritePairs(metadata: map<string, string>, keys: seq<string>) returns (text: string)
      requires forall k :: k in keys ==> k in metadata
      ensures text == Join(Pairs(metadata, keys), ";")
    {
      ghost var pairs := Pairs(metadata, keys);
      text := "";
      for i := 0 to |keys|
        invariant text == Join(pairs[..i], ";")
      {
        JoinPrefix(pairs, ";", i);
        assert keys[i] in keys;
        if i > 0 {
          text := text + ";";
        }
        text := text + Pair(metadata, keys[i]);
      }
      assert pairs[..|pairs|] == pairs;
    }

    /** The keys of a map, collected in whatever order it is iterated and then sorted. */
    static method CollectSortedKeys(all: set<string>) returns (keys: seq<string>)
      ensures keys == SortedKeys(all)
    {
      keys := [];
      var rest := all;
      while rest != {}
        invariant rest <= all && NoDup(keys) && Elems(keys) == all - rest
      {
        var k :| k in rest;
        rest := rest - {k};
        assert Elems(keys + [k]) == Elems(keys) + {k};
        keys := keys + [k];
      }
      assert Elems(keys) == all;
      SortGivesSortedKeys(keys);
      keys := Sort(keys);
    }

    method GeneratePluginSHA(p: Plugin) returns (sha: string)
      ensures sha == hash(PluginText(p))
    {
      var metadata := CanonicalizeMetadata(p.metadata);
      var canonical := p.name + ['|'] + (p.version + ['|'] + (p.repository + ['|'] + (p.path + ['|']
                       + (Join(p.dependencies, ",") + ['|'] + metadata))));
      sha := hash(canonical);
    }

    method GenerateContentHash(lf: Lockfile) returns (h: string)
      ensures h == hash(ContentText(lf))
    {
      var keys := CollectSortedKeys(lf.plugins.Keys);
      KeysAreKeys(lf.plugins);
      ghost var lines := ContentLines(lf);
      TerminatedPrefix(lines, 0);
      var canonical := "version:" + lf.version + ['\n'];
      for i := 0 to |keys|
        invariant canonical == Terminated(lines[..i+1])
      {
        TerminatedPrefix(lines, i + 1);
        assert keys[i] in keys && lines[i+1] == EntryLine(lf.plugins, keys[i]);
        canonical := canonical + EntryLine(lf.plugins, keys[i]) + ['\n'];
      }
      assert lines[..|lines|] == lines;
      h := hash(canonical);
    }

    method GenerateLockfile(registry: Registry, active: seq<string>) returns (r: Result<Lockfile, Resolution>)
      ensures Generated(hash, registry.plugins, active, r)
    {
      var resolution := registry.ResolveDependencies(active);
      if !resolution.Resolved? {
        return Failure(resolution);
      }
      var order := resolution.order;
      assert Elems(order) == NeededPlugins(registry.plugins, active);
      var entries := GenerateEntries(registry, order);
      var lf := Lockfile("1.0", entries, EMPTY_METADATA);
      var contentHash := GenerateContentHash(lf);
      r := Success(lf.(metadata := EMPTY_METADATA.(contentHash := contentHash)));
    }

    method GenerateEntries(registry: Registry, order: seq<string>) returns (entries: map<string, LockEntry>)
      requires Elems(order) <= registry.plugins.Keys
      ensures entries == Entries(hash, registry.plugins, Elems(order))
    {
      entries := map[];
      for i := 0 to |order|
        invariant Elems(order[..i]) <= registry.plugins.Keys
        invariant entries == Entries(hash, registry.plugins, Elems(order[..i]))
      {
        assert order[i] in Elems(order);
        EntriesOneMore(hash, registry.plugins, order, i);
        var entry := GenerateEntry(registry, order[i]);
        entries := entries[order[i] := entry];
      }
      assert order[..|order|] == order;
    }

    method GenerateEntry(registry: Registry, name: string) returns (entry: LockEntry)
      requires name in registry.plugins
      ensures entry == Entry(hash, registry.plugins[name])
    {
      var plugin := registry.GetPlugin(name);
      var p := plugin.value;
      var sha := GeneratePluginSHA(p);
      entry := LockEntry(p.name, p.version, sha, p.repository, p.path, p.dependencies, p.metadata);
    }

    method VerifyIntegrity(lf: Lockfile) returns (ok: bool)
      ensures ok <==> lf.metadata.contentHash == hash(ContentText(lf))
    {
      var actual := GenerateContentHash(lf);
      ok := lf.metadata.contentHash == actual;
    }

    /** The error is the resolver's; without a lockfile that can be read the answer is false. */
    method IsUpToDate(registry: Registry, active: seq<string>, readOk: bool) returns (r: Result<bool, Resolution>)
      ensures exists current ::
        Generated(hash, registry.plugins, active, current) && UpToDateAnswer(Readable(file, readOk), current, r)
      ensures r.Success? <==> AllNeededRegistered(registry.plugins, active) && !NeededCycle(registry.plugins, active)
      ensures r.Failure? ==> Answers(registry.plugins, active, r.error)
      ensures r == Success(true) ==> file.Holding? && readOk
    {
      var current := GenerateLockfile(registry, active);
      if current.Failure? {
        OutcomeTrichotomy(registry.plugins, active, current.error);
        r := Failure(current.error);
      } else {
        var existing := LoadLockfile(readOk);
        if existing.Failure? {
          r := Success(false);
        } else {
          r := Success(existing.value.metadata.contentHash == current.value.metadata.contentHash);
        }
      }
      assert UpToDateAnswer(Readable(file, readOk), current, r);
    }
  }

  function Readable(file: File, readOk: bool): Option<Lockfile> {
    if file.Holding? && readOk then Some(file.lf) else None
  }

  predicate UpToDateAnswer(saved: Option<Lockfile>, current: Result<Lockfile, Resolution>, r: Result<bool, Resolution>) {
    match current
    case Failure(e) => r == Failure(e)
    case Success(lf) => r == Success(saved.Some? && saved.value.metadata.contentHash == lf.metadata.contentHash)
  }

  // ----- What a generated lockfile holds -----

  /** The entry records the plugin field by field. */
  predicate Records(entry: LockEntry, p: Plugin) {
    && entry.name == p.name && entry.version == p.version
    && entry.repository == p.repository && entry.path == p.path
    && entry.dependencies == p.dependencies && entry.metadata == p.metadata
  }

  lemma EntriesRecord(hash: string -> string, plugins: Plugins, needed: set<string>)
    requires needed <= plugins.Keys
    ensures var entries := Entries(hash, plugins, needed);
      && entries.Keys == needed
      && forall name :: name in needed ==>
           Records(entries[name], plugins[name]) && entries[name].sha == hash(PluginText(plugins[name]))
  {}

  lemma LockedEntries(hash: string -> string, plugins: Plugins, needed: set<string>)
    requires needed <= plugins.Keys
    ensures Locked(hash, plugins, needed).plugins == Entries(hash, plugins, needed)
  {}

  /** A generated lockfile has an entry for each needed plugin and for nothing else, which records that plugin. */
  lemma GeneratedRecordsPlugins(hash: string -> string, plugins: Plugins, active: seq<string>, lf: Lockfile)
    requires Generated(hash, plugins, active, Success(lf))
    ensures forall name :: name in lf.plugins <==> Needed(plugins, active, name)
    ensures forall name :: name in lf.plugins ==>
      && name in plugins && Records(lf.plugins[name], plugins[name])
      && lf.plugins[name].sha == hash(PluginText(plugins[name]))
  {
    var needed := NeededPlugins(plugins, active);
    LockedEntries(hash, plugins, needed);
    EntriesRecord(hash, plugins, needed);
    assert lf.plugins.Keys == needed;
    forall name ensures name in needed <==> Needed(plugins, active, name) {}
  }

  /** Its other fields. */
  lemma GeneratedHeader(hash: string -> string, plugins: Plugins, active: seq<string>, lf: Lockfile)
    requires Generated(hash, plugins, active, Success(lf))
    ensures lf.version == "1.0" && lf.metadata.generator == "nexus" && lf.metadata.extra == map[]
    ensures lf.metadata.contentHash == hash(ContentText(lf))
  {
    ContentHashOfLocked(hash, plugins, NeededPlugins(plugins, active));
  }

  /** The plugins that the entries describe. */
  function ReadBack(entries: map<string, LockEntry>): Plugins {
    map name | name in entries ::
      var e := entries[name];
      Plugin(e.name, e.version, "", e.repository, e.path, e.dependencies, e.metadata)
  }

  lemma ReadBackAgrees(plugins: Plugins, active: seq<string>, entries: map<string, LockEntry>)
    requires forall name :: name in entries <==> Needed(plugins, active, name)
    requires forall name :: name in entries ==> name in plugins && entries[name].dependencies == plugins[name].dependencies
    ensures AgreeOnNeeded(plugins, ReadBack(entries), active)
  {
    var g, g' := DependencyGraph(plugins), DependencyGraph(ReadBack(entries));
    forall name | Needed(plugins, active, name) ensures AgreeOn(plugins, ReadBack(entries), name) {
      assert Succ(g, name) == Succ(g', name);
    }
  }

  /** A registry filled from a generated lockfile resolves the request to the same order. */
  lemma LockfileRoundTrip(hash: string -> string, plugins: Plugins, active: seq<string>, lf: Lockfile,
                          r: Resolution, r': Resolution)
    requires Generated(hash, plugins, active, Success(lf))
    requires Answers(plugins, active, r) && Answers(ReadBack(lf.plugins), active, r')
    ensures r.Resolved? && r' == r
  {
    GeneratedRecordsPlugins(hash, plugins, active, lf);
    assert AllNeededRegistered(plugins, active) && !NeededCycle(plugins, active);
    ReadBackResolves(plugins, active, lf.plugins, r, r');
  }

  lemma ReadBackResolves(plugins: Plugins, active: seq<string>, entries: map<string, LockEntry>,
                         r: Resolution, r': Resolution)
    requires AllNeededRegistered(plugins, active) && !NeededCycle(plugins, active)
    requires forall name :: name in entries <==> Needed(plugins, active, name)
    requires forall name :: name in entries ==> name in plugins && entries[name].dependencies == plugins[name].dependencies
    requires Answers(plugins, active, r) && Answers(ReadBack(entries), active, r')
    ensures r.Resolved? && r' == r
  {
    ReadBackAgrees(plugins, active, entries);
    OutcomeTrichotomy(plugins, active, r);
    AnswerDependsOnRelationOnly(plugins, ReadBack(entries), active, active, r, r');
  }

  // ----- When a lockfile is up to date -----

  ghost predicate CleanNeeded(plugins: Plugins, needed: set<string>) {
    forall name :: name in needed ==>
      && name in plugins && CleanPlugin(plugins[name])
      && '|' !in name && '\n' !in name && '\n' !in plugins[name].version
  }

  lemma LockedIsClean(hash: string -> string, plugins: Plugins, needed: set<string>)
    requires HashIdeal(hash) && CleanNeeded(plugins, needed) && needed <= plugins.Keys
    ensures CleanContent(Locked(hash, plugins, needed))
  {}

  /** The content hash of a generated lockfile does not depend on the hash field itself. */
  lemma ContentHashOfLocked(hash: string -> string, plugins: Plugins, needed: set<string>)
    requires needed <= plugins.Keys
    ensures var lf := Locked(hash, plugins, needed); lf.metadata.contentHash == hash(ContentText(lf))
  {}

  /** Equal content hashes mean the same closure with the same locked fields, and conversely. */
  lemma SameHashSamePlugins(hash: string -> string, plugins: Plugins, needed: set<string>,
                            plugins': Plugins, needed': set<string>)
    requires HashIdeal(hash) && needed <= plugins.Keys && needed' <= plugins'.Keys
    requires CleanNeeded(plugins, needed) && CleanNeeded(plugins', needed')
    ensures Locked(hash, plugins, needed).metadata.contentHash == Locked(hash, plugins', needed').metadata.contentHash
            <==> needed == needed' && forall name :: name in needed ==> SameLockedFields(plugins[name], plugins'[name])
  {
    var lf, lf' := Locked(hash, plugins, needed), Locked(hash, plugins', needed');
    ContentHashOfLocked(hash, plugins, needed);
    ContentHashOfLocked(hash, plugins', needed');
    LockedIsClean(hash, plugins, needed);
    LockedIsClean(hash, plugins', needed');
    ContentTextInjective(lf, lf');
    SameMapsSamePlugins(hash, plugins, needed, plugins', needed');
  }

  lemma SameEntrySamePlugin(hash: string -> string, p: Plugin, q: Plugin)
    requires HashIdeal(hash) && CleanPlugin(p) && CleanPlugin(q)
    ensures (p.version, hash(PluginText(p))) == (q.version, hash(PluginText(q))) <==> SameLockedFields(p, q)
  {
    PluginTextInjective(p, q);
  }

  lemma LockedContent(hash: string -> string, plugins: Plugins, needed: set<string>)
    requires needed <= plugins.Keys
    ensures var m := ContentMap(Locked(hash, plugins, needed));
      m.Keys == needed && forall name :: name in needed ==>
        m[name] == (plugins[name].version, hash(PluginText(plugins[name])))
  {}

  lemma SameMapsSamePlugins(hash: string -> string, plugins: Plugins, needed: set<string>,
                            plugins': Plugins, needed': set<string>)
    requires HashIdeal(hash) && needed <= plugins.Keys && needed' <= plugins'.Keys
    requires CleanNeeded(plugins, needed) && CleanNeeded(plugins', needed')
    ensures ContentMap(Locked(hash, plugins, needed)) == ContentMap(Locked(hash, plugins', needed'))
            <==> needed == needed' && forall name :: name in needed ==> SameLockedFields(plugins[name], plugins'[name])
  {
    LockedContent(hash, plugins, needed);
    LockedContent(hash, plugins', needed');
    var m, m' := ContentMap(Locked(hash, plugins, needed)), ContentMap(Locked(hash, plugins', needed'));
    forall name | name in needed && name in needed'
      ensures m[name] == m'[name] <==> SameLockedFields(plugins[name], plugins'[name])
    {
      SameEntrySamePlugin(hash, plugins[name], plugins'[name]);
    }
    EqualPointwise(m, m');
  }

  /**
   Against a lockfile generated and saved for an earlier registry and request, IsUpToDate answers true
   exactly when the closure of the active plugins is the same set and every plugin in it has the same
   name, version, repository, path, dependencies and metadata.
   */
  lemma UpToDateMeansUnchanged(hash: string -> string, plugins: Plugins, active: seq<string>, lf: Lockfile,
                               plugins': Plugins, active': seq<string>, current: Result<Lockfile, Resolution>,
                               r: Result<bool, Resolution>)
    requires HashIdeal(hash)
    requires CleanNeeded(plugins, NeededPlugins(plugins, active))
    requires CleanNeeded(plugins', NeededPlugins(plugins', active'))
    requires Generated(hash, plugins, active, Success(lf))
    requires Generated(hash, plugins', active', current) && UpToDateAnswer(Some(lf), current, r)
    ensures r.Failure? <==> !AllNeededRegistered(plugins', active') || NeededCycle(plugins', active')
    ensures r.Success? ==> (r.value <==>
      && NeededPlugins(plugins, active) == NeededPlugins(plugins', active')
      && forall name :: name in NeededPlugins(plugins, active) ==> SameLockedFields(plugins[name], plugins'[name]))
  {
    if current.Success? {
      SameHashSamePlugins(hash, plugins, NeededPlugins(plugins, active), plugins', NeededPlugins(plugins', active'));
    } else {
      OutcomeTrichotomy(plugins', active', current.error);
    }
  }

  /** Whatever the hash and the fields are, a lockfile generated for the same plugins is up to date. */
  lemma UnchangedIsUpToDate(hash: string -> string, plugins: Plugins, active: seq<string>, lf: Lockfile,
                            plugins': Plugins, active': seq<string>, lf': Lockfile)
    requires Generated(hash, plugins, active, Success(lf)) && Generated(hash, plugins', active', Success(lf'))
    requires NeededPlugins(plugins, active) == NeededPlugins(plugins', active')
    requires forall name :: name in NeededPlugins(plugins, active) ==> SameLockedFields(plugins[name], plugins'[name])
    ensures UpToDateAnswer(Some(lf), Success(lf'), Success(true))
  {
    var needed := NeededPlugins(plugins, active);
    ContentHashOfLocked(hash, plugins, needed);
    ContentHashOfLocked(hash, plugins', needed);
    SameFieldsSameContent(hash, plugins, plugins', needed);
    SameContentSameText(lf, lf');
  }

  lemma SameFieldsSameContent(hash: string -> string, plugins: Plugins, plugins': Plugins, needed: set<string>)
    requires needed <= plugins.Keys && needed <= plugins'.Keys
    requires forall name :: name in needed ==> SameLockedFields(plugins[name], plugins'[name])
    ensures ContentMap(Locked(hash, plugins, needed)) == ContentMap(Locked(hash, plugins', needed))
  {
    var m, m' := ContentMap(Locked(hash, plugins, needed)), ContentMap(Locked(hash, plugins', needed));
    LockedContent(hash, plugins, needed);
    LockedContent(hash, plugins', needed);
    forall name | name in needed ensures m[name] == m'[name] {
      SameFieldsSameText(plugins[name], plugins'[name]);
    }
    EqualPointwise(m, m');
  }

  lemma SameFieldsSameText(p: Plugin, q: Plugin)
    requires SameLockedFields(p, q)
    ensures PluginText(p) == PluginText(q) && p.version == q.version
  {}

  // ----- What the integrity check covers -----

  /** A generated lockfile passes; an edited one with the same recorded hash passes exactly when the
      version and every key's version and SHA are as generated. Other fields are not covered. */
  lemma IntegrityCoversVersionsAndSHAs(hash: string -> string, plugins: Plugins, active: seq<string>,
                                       lf: Lockfile, edited: Lockfile)
    requires HashIdeal(hash) && CleanNeeded(plugins, NeededPlugins(plugins, active))
    requires Generated(hash, plugins, active, Success(lf))
    requires edited.metadata.contentHash == lf.metadata.contentHash && CleanContent(edited)
    ensures lf.metadata.contentHash == hash(ContentText(lf))
    ensures edited.metadata.contentHash == hash(ContentText(edited))
            <==> edited.version == lf.version && ContentMap(edited) == ContentMap(lf)
  {
    ContentHashOfLocked(hash, plugins, NeededPlugins(plugins, active));
    LockedIsClean(hash, plugins, NeededPlugins(plugins, active));
    ContentTextInjective(lf, edited);
  }
}
