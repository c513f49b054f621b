/** Cleaning the speech server's audio cache (scripts/tts_server.py,
    cleanup_cache). The directory is a map from paths to regular files; the
    order in which it is scanned, the clock and the paths that cannot be
    deleted are inputs. */
module CacheCleanup {
  import opened Text

  /** Times are seconds. */
  datatype File = File(mtime: real, size: nat)

  type Directory = map<Text, File>

  datatype Entry = Entry(mtime: real, size: nat, path: Text)

  /** `stuck` holds the paths that os.unlink cannot remove. */
  datatype Config = Config(protected: Text, now: real, maxAge: nat, maxBytes: nat, stuck: set<Text>)

  datatype State = State(files: Directory, entries: seq<Entry>, total: int, removed: nat, reclaimed: nat)

  const MP3: Text := [0x2E, 0x6D, 0x70, 0x33]
  const JSON: Text := [0x2E, 0x6A, 0x73, 0x6F, 0x6E]

  predicate IsMp3(path: Text) { |path| >= 4 && path[|path| - 4..] == MP3 }

  /** The timing file beside an audio file. */
  function Timing(path: Text): Text { if |path| >= 4 then path[..|path| - 4] + JSON else JSON }

  lemma Mp3Ends(path: Text)
    requires IsMp3(path)
    ensures path[|path| - 1] == 0x33
  {
    assert path[|path| - 4..][3] == MP3[3];
  }

  lemma TimingFacts(path: Text, other: Text)
    requires IsMp3(path)
    ensures !IsMp3(Timing(path))
    ensures IsMp3(other) && Timing(path) == Timing(other) ==> path == other
  {
    var t := Timing(path);
    assert t[|t| - 1] == 0x6E;
    if IsMp3(t) { Mp3Ends(t); }
    if IsMp3(other) && t == Timing(other) {
      assert path[..|path| - 4] == t[..|t| - 5] == other[..|other| - 4];
      assert path == path[..|path| - 4] + MP3 && other == other[..|other| - 4] + MP3;
    }
  }

  // ---------- deleting ----------

  /** Deletes an audio file and then its timing file; false if one of the two deletions fails. */
  function Deleted(files: Directory, path: Text, stuck: set<Text>): (Directory, bool) {
    if path in stuck then (files, false)
    else
      var rest := files - {path};
      if Timing(path) !in rest then (rest, true)
      else if Timing(path) in stuck then (rest, false)
      else (rest - {Timing(path)}, true)
  }

  predicate Expired(f: File, path: Text, cfg: Config) {
    path != cfg.protected && cfg.now - f.mtime > cfg.maxAge as real
  }

  function EntryOf(f: File, path: Text): Entry { Entry(f.mtime, f.size, path) }

  // ---------- the two passes ----------

  function SweepOne(s: State, f: File, path: Text, cfg: Config): State {
    if Expired(f, path, cfg) then
      var (files, ok) := Deleted(s.files, path, cfg.stuck);
      if ok then s.(files := files, removed := s.removed + 1, reclaimed := s.reclaimed + f.size) else s.(files := files)
    else s.(entries := s.entries + [EntryOf(f, path)], total := s.total + f.size)
  }

  /** Removes the expired files and lists the others. */
  function Sweep(files: Directory, scan: seq<Text>, cfg: Config): State
    requires forall p :: p in scan ==> p in files
  {
    if scan == [] then State(files, [], 0, 0, 0)
    else
      var path := scan[|scan| - 1];
      SweepOne(Sweep(files, scan[..|scan| - 1], cfg), files[path], path, cfg)
  }

  /** Once the rest fits, nothing more is removed. */
  function EvictOne(s: State, e: Entry, cfg: Config): State {
    if s.total <= cfg.maxBytes || e.path == cfg.protected then s
    else
      var (files, ok) := Deleted(s.files, e.path, cfg.stuck);
      if !ok then s.(files := files)
      else
        s.(files := files, total := s.total - e.size, removed := s.removed + 1, reclaimed := s.reclaimed + e.size)
  }

  function Evict(s: State, sorted: seq<Entry>, cfg: Config): State {
    if sorted == [] then s else EvictOne(Evict(s, sorted[..|sorted| - 1], cfg), sorted[|sorted| - 1], cfg)
  }

  /** The order of Python's tuples (mtime, size, path). */
  predicate Earlier(a: Entry, b: Entry) {
    || a.mtime < b.mtime
    || (a.mtime == b.mtime && a.size < b.size)
    || (a.mtime == b.mtime && a.size == b.size && Less(a.path, b.path))
  }

  function Insert(e: Entry, s: seq<Entry>): seq<Entry> {
    if s == [] || Earlier(e, s[0]) then [e] + s else [s[0]] + Insert(e, s[1..])
  }

  function Sort(s: seq<Entry>): seq<Entry> {
    if s == [] then [] else Insert(s[|s| - 1], Sort(s[..|s| - 1]))
  }

  function Cleanup(files: Directory, scan: seq<Text>, cfg: Config): State
    requires forall p :: p in scan ==> p in files
  {
    var swept := Sweep(files, scan, cfg);
    Evict(swept, Sort(swept.entries), cfg)
  }

  // ---------- sorting ----------

  lemma EarlierIsStrict(a: Entry, b: Entry, c: Entry)
    ensures Earlier(a, b) || a == b || Earlier(b, a)
    ensures !(Earlier(a, b) && Earlier(b, a))
    ensures Earlier(a, b) && Earlier(b, c) ==> Earlier(a, c)
  {
    hide Less;
    LessIsTotal(a.path, b.path);
    if Less(a.path, b.path) && Less(b.path, c.path) { LessIsTransitive(a.path, b.path, c.path); }
  }

  ghost predicate Sorted(s: seq<Entry>) {
    forall i, j :: 0 <= i < j < |s| ==> !Earlier(s[j], s[i])
  }

  lemma {:induction false} InsertAdds(e: Entry, s: seq<Entry>)
    ensures multiset(Insert(e, s)) == multiset(s) + multiset{e}
    ensures forall x :: x in Insert(e, s) ==> x == e || x in s
  {
    hide Earlier;
    if s != [] && !Earlier(e, s[0]) {
      InsertAdds(e, s[1..]);
      assert s == [s[0]] + s[1..];
    }
  }

  lemma {:induction false} InsertSorts(e: Entry, s: seq<Entry>)
    requires Sorted(s)
    ensures Sorted(Insert(e, s))
  {
    hide Earlier;
    if s == [] {
    } else if Earlier(e, s[0]) {
      forall j | 0 <= j < |s| ensures !Earlier(s[j], e) {
        EarlierIsStrict(s[j], e, s[0]);
        EarlierIsStrict(e, s[0], s[j]);
      }
    } else {
      var rest := s[1..];
      InsertSorts(e, rest);
      InsertAdds(e, rest);
      assert forall x :: x in rest ==> !Earlier(x, s[0]);
    }
  }

  lemma {:induction false} SortSorts(s: seq<Entry>)
    ensures Sorted(Sort(s)) && multiset(Sort(s)) == multiset(s)
  {
    hide Earlier, Insert;
    if s != [] {
      SortSorts(s[..|s| - 1]);
      InsertSorts(s[|s| - 1], Sort(s[..|s| - 1]));
      InsertAdds(s[|s| - 1], Sort(s[..|s| - 1]));
      assert s == s[..|s| - 1] + [s[|s| - 1]];
    }
  }

  // ---------- the cache ----------

  lemma SweepSnoc(files: Directory, scan: seq<Text>, n: nat, cfg: Config)
    requires n < |scan| && forall p :: p in scan ==> p in files
    ensures Sweep(files, scan[..n + 1], cfg) == SweepOne(Sweep(files, scan[..n], cfg), files[scan[n]], scan[n], cfg)
  {
    hide SweepOne;
    assert scan[..n + 1][..n] == scan[..n];
  }

  lemma EvictSnoc(s: State, sorted: seq<Entry>, n: nat, cfg: Config)
    requires n < |sorted|
    ensures Evict(s, sorted[..n + 1], cfg) == EvictOne(Evict(s, sorted[..n], cfg), sorted[n], cfg)
  {
    hide EvictOne;
    assert sorted[..n + 1][..n] == sorted[..n];
  }

  /** Leaving the loop early is the same as going on without removing. */
  lemma {:induction false} EvictRest(s: State, sorted: seq<Entry>, n: nat, cfg: Config)
    requires n <= |sorted| && (n == |sorted| || Evict(s, sorted[..n], cfg).total <= cfg.maxBytes)
    ensures Evict(s, sorted, cfg) == Evict(s, sorted[..n], cfg)
    decreases |sorted| - n
  {
    hide Deleted;
    if n == |sorted| {
      assert sorted[..n] == sorted;
    } else {
      EvictSnoc(s, sorted, n, cfg);
      EvictRest(s, sorted, n + 1, cfg);
    }
  }

  class Cache {
    var files: Directory

    constructor (files: Directory)
      ensures this.files == files
    {
      this.files := files;
    }

    /** os.unlink */
    method Unlink(path: Text, stuck: set<Text>) returns (ok: bool)
      modifies this
      ensures ok <==> path !in stuck
      ensures files == if ok then old(files) - {path} else old(files)
    {
      if path in stuck { return false; }
      files := files - {path};
      return true;
    }

    method DeleteTrack(path: Text, stuck: set<Text>) returns (ok: bool)
      modifies this
      ensures (files, ok) == Deleted(old(files), path, stuck)
    {
      ok := Unlink(path, stuck);
      if !ok { return; }
      var timing := Timing(path);
      if timing in files { ok := Unlink(timing, stuck); }
    }

    method CleanupCache(scan: seq<Text>, cfg: Config) returns (removed: nat, reclaimed: nat)
      requires forall p :: p in scan ==> p in files
      modifies this
      ensures var s := Cleanup(old(files), scan, cfg);
        files == s.files && removed == s.removed && reclaimed == s.reclaimed
    {
      hide Deleted, Expired, Sort;
      ghost var before := files;
      var stats := map p | p in files :: files[p];
      var entries: seq<Entry> := [];
      var total: int := 0;
      removed, reclaimed := 0, 0;
      for n := 0 to |scan|
        invariant Sweep(before, scan[..n], cfg) == State(files, entries, total, removed, reclaimed)
      {
        SweepSnoc(before, scan, n, cfg);
        var path := scan[n];
        var stat := stats[path];
        if Expired(stat, path, cfg) {
          var ok := DeleteTrack(path, cfg.stuck);
          if ok { removed, reclaimed := removed + 1, reclaimed + stat.size; }
          continue;
        }
        entries := entries + [Entry(stat.mtime, stat.size, path)];
        total := total + stat.size;
      }
      assert scan[..|scan|] == scan;
      var sorted := Sort(entries);
      ghost var swept := State(files, entries, total, removed, reclaimed);
      if total > cfg.maxBytes {
        var n := 0;
        while n < |sorted|
          invariant n <= |sorted|
          invariant Evict(swept, sorted[..n], cfg) == State(files, entries, total, removed, reclaimed)
        {
          if total <= cfg.maxBytes { break; }
          EvictSnoc(swept, sorted, n, cfg);
          var e := sorted[n];
          n := n + 1;
          if e.path == cfg.protected { continue; }
          var ok := DeleteTrack(e.path, cfg.stuck);
          if ok {
            total := total - e.size;
            removed, reclaimed := removed + 1, reclaimed + e.size;
          }
        }
        EvictRest(swept, sorted, n, cfg);
        assert sorted[..|sorted|] == sorted;
      } else {
        EvictRest(swept, sorted, 0, cfg);
      }
    }
  }

  // ---------- bytes ----------

  /** The bytes of the listed files that are still there. */
  function Bytes(entries: seq<Entry>, files: Directory): nat {
    if entries == [] then 0
    else (if entries[0].path in files then entries[0].size else 0) + Bytes(entries[1..], files)
  }

  ghost predicate DistinctPaths(entries: seq<Entry>) {
    forall i, j :: 0 <= i < j < |entries| ==> entries[i].path != entries[j].path
  }

  lemma {:induction false} BytesSnoc(entries: seq<Entry>, e: Entry, files: Directory)
    ensures Bytes(entries + [e], files) == Bytes(entries, files) + if e.path in files then e.size else 0
  {
    if entries != [] {
      assert (entries + [e])[1..] == entries[1..] + [e];
      BytesSnoc(entries[1..], e, files);
    }
  }

  lemma {:induction false} BytesInsert(e: Entry, s: seq<Entry>, files: Directory)
    ensures Bytes(Insert(e, s), files) == Bytes(s, files) + if e.path in files then e.size else 0
  {
    hide Earlier;
    if s != [] && !Earlier(e, s[0]) { BytesInsert(e, s[1..], files); }
  }

  lemma {:induction false} BytesSort(s: seq<Entry>, files: Directory)
    ensures Bytes(Sort(s), files) == Bytes(s, files)
  {
    hide Insert;
    if s != [] {
      var rest, last := s[..|s| - 1], s[|s| - 1];
      BytesSort(rest, files);
      BytesInsert(last, Sort(rest), files);
      BytesSnoc(rest, last, files);
      assert s == rest + [last];
    }
  }

  /** Only whether the listed paths are there matters. */
  lemma {:induction false} BytesSame(entries: seq<Entry>, files: Directory, files': Directory)
    requires forall i :: 0 <= i < |entries| ==> (entries[i].path in files <==> entries[i].path in files')
    ensures Bytes(entries, files') == Bytes(entries, files)
  {
    if entries != [] { BytesSame(entries[1..], files, files'); }
  }

  lemma {:induction false} BytesWithout(entries: seq<Entry>, files: Directory, files': Directory, n: nat)
    requires n < |entries| && DistinctPaths(entries) && entries[n].path in files && entries[n].path !in files'
    requires forall i :: 0 <= i < |entries| && i != n ==> (entries[i].path in files <==> entries[i].path in files')
    ensures Bytes(entries, files') == Bytes(entries, files) - entries[n].size
  {
    if n == 0 {
      BytesSame(entries[1..], files, files');
    } else {
      BytesWithout(entries[1..], files, files', n - 1);
    }
  }

  // ---------- the first pass ----------

  /** The scan names every audio file once. */
  ghost predicate ScanFits(files: Directory, scan: seq<Text>) {
    && (forall p :: p in scan <==> p in files && IsMp3(p))
    && (forall i, j :: 0 <= i < j < |scan| ==> scan[i] != scan[j])
  }

  predicate Goes(files: Directory, path: Text, cfg: Config) { path in files && Expired(files[path], path, cfg) }

  /** `files'` is `files` without the audio files in `gone` and their timing files. */
  ghost predicate Without(files: Directory, files': Directory, gone: set<Text>) {
    && (forall f :: f in files' ==> f in files && files'[f] == files[f])
    && (forall f :: f in files ==> (f !in files' <==> f in gone || exists p :: p in gone && f == Timing(p)))
  }

  lemma WithoutMore(files: Directory, files': Directory, gone: set<Text>, path: Text)
    requires Without(files, files', gone)
    ensures Without(files, Deleted(files', path, {}).0, gone + {path}) && Deleted(files', path, {}).1
  {
    hide Timing;
    var files'' := Deleted(files', path, {}).0;
    forall f | f in files
      ensures f !in files'' <==> f in gone + {path} || exists p :: p in gone + {path} && f == Timing(p)
    {
      if f !in files' {
        if f !in gone {
          var p :| p in gone && f == Timing(p);
          assert p in gone + {path};
        }
      } else if f == Timing(path) {
        assert path in gone + {path};
      }
    }
  }

  function ExpiredOf(files: Directory, scan: seq<Text>, cfg: Config): set<Text> {
    set p | p in scan && Goes(files, p, cfg)
  }

  /** The entries of the scanned files that stay. */
  function Kept(files: Directory, scan: seq<Text>, cfg: Config): seq<Entry>
    requires forall p :: p in scan ==> p in files
  {
    if scan == [] then []
    else
      var path := scan[|scan| - 1];
      Kept(files, scan[..|scan| - 1], cfg)
      + if Expired(files[path], path, cfg) then [] else [EntryOf(files[path], path)]
  }

  /** All scanned files. */
  function Listed(files: Directory, scan: seq<Text>): seq<Entry>
    requires forall p :: p in scan ==> p in files
  {
    if scan == [] then [] else Listed(files, scan[..|scan| - 1]) + [EntryOf(files[scan[|scan| - 1]], scan[|scan| - 1])]
  }

  function Sum(entries: seq<Entry>): nat {
    if entries == [] then 0 else Sum(entries[..|entries| - 1]) + entries[|entries| - 1].size
  }

  lemma SumSnoc(entries: seq<Entry>, e: Entry)
    ensures Sum(entries + [e]) == Sum(entries) + e.size
  {
    assert (entries + [e])[..|entries|] == entries;
  }

  lemma {:induction false} SweepKeeps(files: Directory, scan: seq<Text>, cfg: Config)
    requires forall p :: p in scan ==> p in files
    ensures var s := Sweep(files, scan, cfg); s.entries == Kept(files, scan, cfg) && s.total == Sum(s.entries)
  {
    hide Deleted, Expired;
    if scan != [] {
      var rest, path := scan[..|scan| - 1], scan[|scan| - 1];
      SweepKeeps(files, rest, cfg);
      SumSnoc(Kept(files, rest, cfg), EntryOf(files[path], path));
    }
  }

  lemma DeletedOk(files: Directory, path: Text)
    ensures Deleted(files, path, {}).1
  {
  }

  lemma {:induction false} SweepConserves(files: Directory, scan: seq<Text>, cfg: Config)
    requires cfg.stuck == {} && forall p :: p in scan ==> p in files
    ensures var s := Sweep(files, scan, cfg); s.reclaimed + s.total == Sum(Listed(files, scan))
  {
    hide Deleted, Expired;
    if scan != [] {
      var rest, path := scan[..|scan| - 1], scan[|scan| - 1];
      SweepConserves(files, rest, cfg);
      SumSnoc(Listed(files, rest), EntryOf(files[path], path));
      DeletedOk(Sweep(files, rest, cfg).files, path);
    }
  }

  lemma ExpiredSnoc(files: Directory, scan: seq<Text>, cfg: Config)
    requires scan != [] && forall p :: p in scan ==> p in files
    ensures var rest, path := scan[..|scan| - 1], scan[|scan| - 1];
      var own := if Expired(files[path], path, cfg) then {path} else {};
      ExpiredOf(files, scan, cfg) == ExpiredOf(files, rest, cfg) + own
  {
    hide Expired;
    assert scan == scan[..|scan| - 1] + [scan[|scan| - 1]];
  }

  lemma NothingGone(files: Directory)
    ensures Without(files, files, {})
  {
  }

  lemma {:induction false} SweepRemoves(files: Directory, scan: seq<Text>, cfg: Config)
    requires cfg.stuck == {} && forall p :: p in scan ==> p in files
    ensures Without(files, Sweep(files, scan, cfg).files, ExpiredOf(files, scan, cfg))
  {
    hide Deleted, Expired, Without;
    if scan == [] {
      NothingGone(files);
      assert ExpiredOf(files, scan, cfg) == {};
    } else {
      var rest, path := scan[..|scan| - 1], scan[|scan| - 1];
      SweepRemoves(files, rest, cfg);
      ExpiredSnoc(files, scan, cfg);
      if Expired(files[path], path, cfg) {
        WithoutMore(files, Sweep(files, rest, cfg).files, ExpiredOf(files, rest, cfg), path);
      } else {
        assert ExpiredOf(files, scan, cfg) == ExpiredOf(files, rest, cfg);
      }
    }
  }

  // ---------- the second pass ----------

  function EvictedOf(sorted: seq<Entry>, c: nat, protected: Text): set<Text>
    requires c <= |sorted|
  {
    set i | 0 <= i < c && sorted[i].path != protected :: sorted[i].path
  }

  ghost predicate AllThere(sorted: seq<Entry>, files: Directory) {
    forall i :: 0 <= i < |sorted| ==> IsMp3(sorted[i].path) && sorted[i].path in files
  }

  /** What the second pass has done after `n` entries: `c` is one past the last
      evicted one; the files before it are gone, and without the last eviction
      the limit would be exceeded. */
  ghost predicate CutAt(s: State, sorted: seq<Entry>, cfg: Config, n: nat, t: State, c: nat) {
    && c <= n <= |sorted|
    && Without(s.files, t.files, EvictedOf(sorted, c, cfg.protected))
    && t.total == Bytes(sorted, t.files)
    && t.reclaimed + t.total == s.reclaimed + s.total
    && (forall i :: c <= i < n ==> t.total <= cfg.maxBytes || sorted[i].path == cfg.protected)
    && (c > 0 ==> sorted[c - 1].path != cfg.protected && t.total + sorted[c - 1].size > cfg.maxBytes)
  }

  lemma CutAtStart(s: State, sorted: seq<Entry>, cfg: Config)
    requires s.total == Bytes(sorted, s.files)
    ensures CutAt(s, sorted, cfg, 0, s, 0)
  {
    hide Without;
    NothingGone(s.files);
    assert EvictedOf(sorted, 0, cfg.protected) == {};
  }

  lemma CutStays(s: State, sorted: seq<Entry>, cfg: Config, n: nat, t: State, c: nat)
    requires n < |sorted| && CutAt(s, sorted, cfg, n, t, c)
    requires (t.total <= cfg.maxBytes || sorted[n].path == cfg.protected)
    ensures CutAt(s, sorted, cfg, n + 1, t, c)
  {
    hide Without, EvictedOf;
  }

  lemma EvictedGrows(sorted: seq<Entry>, c: nat, n: nat, protected: Text)
    requires c <= n < |sorted| && sorted[n].path != protected
    requires forall i :: c <= i < n ==> sorted[i].path == protected
    ensures EvictedOf(sorted, n + 1, protected) == EvictedOf(sorted, c, protected) + {sorted[n].path}
  {
    var left, right := EvictedOf(sorted, n + 1, protected), EvictedOf(sorted, c, protected) + {sorted[n].path};
    forall p | p in right ensures p in left {
      if p != sorted[n].path {
        var i :| 0 <= i < c && sorted[i].path != protected && p == sorted[i].path;
        assert 0 <= i < n + 1;
      }
    }
  }

  /** An entry that was not evicted is still there. */
  lemma StillThere(s: State, sorted: seq<Entry>, protected: Text, n: nat, files: Directory, c: nat)
    requires DistinctPaths(sorted) && AllThere(sorted, s.files) && c <= n < |sorted|
    requires Without(s.files, files, EvictedOf(sorted, c, protected))
    ensures sorted[n].path in files
  {
    hide Timing;
    if sorted[n].path !in files {
      if p :| p in EvictedOf(sorted, c, protected) && sorted[n].path == Timing(p) {
        TimingFacts(p, p);
      }
    }
  }

  lemma DeletedOnly(files: Directory, sorted: seq<Entry>, all: Directory, n: nat)
    requires n < |sorted| && DistinctPaths(sorted) && AllThere(sorted, all)
    ensures var files' := Deleted(files, sorted[n].path, {}).0;
      && sorted[n].path !in files' && Deleted(files, sorted[n].path, {}).1
      && forall i :: 0 <= i < |sorted| && i != n ==> (sorted[i].path in files <==> sorted[i].path in files')
  {
    hide Timing, IsMp3;
    TimingFacts(sorted[n].path, sorted[n].path);
  }

  lemma CutMoves(s: State, sorted: seq<Entry>, cfg: Config, n: nat, t: State, c: nat)
    requires cfg.stuck == {} && DistinctPaths(sorted) && AllThere(sorted, s.files) && n < |sorted|
    requires CutAt(s, sorted, cfg, n, t, c) && t.total > cfg.maxBytes && sorted[n].path != cfg.protected
    ensures CutAt(s, sorted, cfg, n + 1, EvictOne(t, sorted[n], cfg), n + 1)
  {
    hide DistinctPaths, AllThere, Without, EvictedOf, Deleted, Bytes;
    var path := sorted[n].path;
    var files := Deleted(t.files, path, {}).0;
    EvictedGrows(sorted, c, n, cfg.protected);
    WithoutMore(s.files, t.files, EvictedOf(sorted, c, cfg.protected), path);
    StillThere(s, sorted, cfg.protected, n, t.files, c);
    DeletedOnly(t.files, sorted, s.files, n);
    BytesWithout(sorted, t.files, files, n);
  }

  lemma {:induction false} EvictCut(s: State, sorted: seq<Entry>, cfg: Config, n: nat) returns (c: nat)
    requires cfg.stuck == {} && DistinctPaths(sorted) && AllThere(sorted, s.files) && n <= |sorted|
    requires s.total == Bytes(sorted, s.files)
    ensures CutAt(s, sorted, cfg, n, Evict(s, sorted[..n], cfg), c)
    decreases n
  {
    hide DistinctPaths, AllThere, Without, EvictedOf, Deleted, CutAt;
    if n == 0 {
      c := 0;
      CutAtStart(s, sorted, cfg);
    } else {
      c := EvictCut(s, sorted, cfg, n - 1);
      EvictSnoc(s, sorted, n - 1, cfg);
      var t := Evict(s, sorted[..n - 1], cfg);
      if t.total <= cfg.maxBytes || sorted[n - 1].path == cfg.protected {
        CutStays(s, sorted, cfg, n - 1, t, c);
      } else {
        CutMoves(s, sorted, cfg, n - 1, t, c);
        c := n;
      }
    }
  }

  // ---------- what the cleanup guarantees ----------

  lemma {:induction false} KeptFacts(files: Directory, scan: seq<Text>, cfg: Config)
    requires forall p :: p in scan ==> p in files
    ensures forall e :: e in Kept(files, scan, cfg) <==>
      e.path in scan && !Expired(files[e.path], e.path, cfg) && e == EntryOf(files[e.path], e.path)
  {
    hide Expired;
    if scan != [] {
      KeptFacts(files, scan[..|scan| - 1], cfg);
      assert scan == scan[..|scan| - 1] + [scan[|scan| - 1]];
    }
  }

  lemma {:induction false} KeptDistinct(files: Directory, scan: seq<Text>, cfg: Config)
    requires forall p :: p in scan ==> p in files
    requires forall i, j :: 0 <= i < j < |scan| ==> scan[i] != scan[j]
    ensures DistinctPaths(Kept(files, scan, cfg))
  {
    hide Expired;
    if scan != [] {
      var rest := scan[..|scan| - 1];
      KeptDistinct(files, rest, cfg);
      KeptFacts(files, rest, cfg);
    }
  }

  lemma {:induction false} InsertDistinct(e: Entry, s: seq<Entry>)
    requires DistinctPaths(s) && forall x :: x in s ==> x.path != e.path
    ensures DistinctPaths(Insert(e, s)) && forall x :: x in Insert(e, s) <==> x == e || x in s
  {
    hide Earlier;
    if s == [] || Earlier(e, s[0]) {
    } else {
      var rest := s[1..];
      assert s == [s[0]] + rest;
      InsertDistinct(e, rest);
      forall x | x in Insert(e, rest) ensures x.path != s[0].path {
        if x != e {
          var k :| 0 <= k < |rest| && rest[k] == x;
          assert s[k + 1] == x;
        }
      }
    }
  }

  lemma {:induction false} SortDistinct(s: seq<Entry>)
    requires DistinctPaths(s)
    ensures DistinctPaths(Sort(s)) && forall x :: x in Sort(s) <==> x in s
  {
    hide Insert;
    if s != [] {
      var rest, last := s[..|s| - 1], s[|s| - 1];
      SortDistinct(rest);
      assert s == rest + [last];
      InsertDistinct(last, Sort(rest));
    }
  }

  lemma {:induction false} SumIsBytes(entries: seq<Entry>, files: Directory)
    requires forall i :: 0 <= i < |entries| ==> entries[i].path in files
    ensures Sum(entries) == Bytes(entries, files)
  {
    if entries != [] {
      var rest, last := entries[..|entries| - 1], entries[|entries| - 1];
      SumIsBytes(rest, files);
      BytesSnoc(rest, last, files);
      assert entries == rest + [last];
    }
  }

  lemma AllThereFrom(entries: seq<Entry>, sorted: seq<Entry>, files: Directory)
    requires AllThere(entries, files) && forall e :: e in sorted <==> e in entries
    ensures AllThere(sorted, files)
  {
    forall i | 0 <= i < |sorted| ensures IsMp3(sorted[i].path) && sorted[i].path in files {
      assert sorted[i] in entries;
    }
  }

  lemma KeptThere(files: Directory, scan: seq<Text>, cfg: Config, files': Directory)
    requires ScanFits(files, scan) && Without(files, files', ExpiredOf(files, scan, cfg))
    ensures AllThere(Kept(files, scan, cfg), files')
  {
    hide Expired, Timing, Kept, IsMp3;
    KeptFacts(files, scan, cfg);
    var entries := Kept(files, scan, cfg);
    forall i | 0 <= i < |entries| ensures IsMp3(entries[i].path) && entries[i].path in files' {
      var path := entries[i].path;
      assert entries[i] in entries;
      if path !in files' {
        var p :| p in ExpiredOf(files, scan, cfg) && path == Timing(p);
        TimingFacts(p, p);
      }
    }
  }

  /** Everything the theorems below need, gathered once: the sorted entries, the
      cut, and the three stages of the directory. */
  lemma CleanupFacts(files: Directory, scan: seq<Text>, cfg: Config) returns (sorted: seq<Entry>, c: nat)
    requires cfg.stuck == {} && ScanFits(files, scan)
    ensures var s, t := Sweep(files, scan, cfg), Cleanup(files, scan, cfg);
      && sorted == Sort(Kept(files, scan, cfg)) && Sorted(sorted) && DistinctPaths(sorted) && AllThere(sorted, s.files)
      && Without(files, s.files, ExpiredOf(files, scan, cfg)) && CutAt(s, sorted, cfg, |sorted|, t, c)
      && s.reclaimed + s.total == Sum(Listed(files, scan)) && s.total == Bytes(sorted, s.files)
      && (forall e :: e in sorted <==>
            e.path in scan && !Expired(files[e.path], e.path, cfg) && e == EntryOf(files[e.path], e.path))
  {
    hide Expired, Without, DistinctPaths, CutAt, Sorted, Listed, Evict, Kept, Sort;
    var s := Sweep(files, scan, cfg);
    SweepKeeps(files, scan, cfg);
    SweepConserves(files, scan, cfg);
    SweepRemoves(files, scan, cfg);
    KeptFacts(files, scan, cfg);
    KeptDistinct(files, scan, cfg);
    sorted := Sort(s.entries);
    SortSorts(s.entries);
    SortDistinct(s.entries);
    KeptThere(files, scan, cfg, s.files);
    SumIsBytes(s.entries, s.files);
    BytesSort(s.entries, s.files);
    AllThereFrom(s.entries, sorted, s.files);
    c := EvictCut(s, sorted, cfg, |sorted|);
    assert sorted[..|sorted|] == sorted;
  }

  /** The protected file and its timing file stay, even when deletions fail. */
  lemma {:induction false} SweepProtects(files: Directory, scan: seq<Text>, cfg: Config, f: Text)
    requires forall p :: p in scan ==> p in files && IsMp3(p)
    requires IsMp3(cfg.protected) && f in files && (f == cfg.protected || f == Timing(cfg.protected))
    ensures var s := Sweep(files, scan, cfg); f in s.files && forall e :: e in s.entries ==> IsMp3(e.path)
  {
    hide IsMp3, Timing;
    if scan != [] {
      var rest, path := scan[..|scan| - 1], scan[|scan| - 1];
      SweepProtects(files, rest, cfg, f);
      TimingFacts(path, cfg.protected);
      TimingFacts(cfg.protected, path);
    }
  }

  lemma {:induction false} EvictProtects(s: State, sorted: seq<Entry>, cfg: Config, f: Text)
    requires forall e :: e in sorted ==> IsMp3(e.path)
    requires IsMp3(cfg.protected) && f in s.files && (f == cfg.protected || f == Timing(cfg.protected))
    ensures f in Evict(s, sorted, cfg).files
  {
    hide IsMp3, Timing;
    if sorted != [] {
      var rest, e := sorted[..|sorted| - 1], sorted[|sorted| - 1];
      EvictProtects(s, rest, cfg, f);
      TimingFacts(e.path, cfg.protected);
      TimingFacts(cfg.protected, e.path);
    }
  }

  lemma ProtectedStays(files: Directory, scan: seq<Text>, cfg: Config, f: Text)
    requires ScanFits(files, scan) && IsMp3(cfg.protected)
    requires f in files && (f == cfg.protected || f == Timing(cfg.protected))
    ensures f in Cleanup(files, scan, cfg).files
  {
    hide IsMp3, Timing, Sweep, Evict, Sort;
    SweepProtects(files, scan, cfg, f);
    var s := Sweep(files, scan, cfg);
    SortSorts(s.entries);
    forall e | e in Sort(s.entries) ensures IsMp3(e.path) {
      assert e in multiset(Sort(s.entries));
    }
    EvictProtects(s, Sort(s.entries), cfg, f);
  }

  lemma WithoutTwice(files: Directory, files': Directory, files'': Directory, gone: set<Text>, gone': set<Text>)
    requires Without(files, files', gone) && Without(files', files'', gone')
    ensures Without(files, files'', gone + gone')
  {
    hide Timing;
    forall f | f in files
      ensures f !in files'' <==> f in gone + gone' || exists p :: p in gone + gone' && f == Timing(p)
    {
      if f !in files' && f !in gone {
        var p :| p in gone && f == Timing(p);
        assert p in gone + gone';
      } else if f in files' && f !in files'' && f !in gone' {
        var p :| p in gone' && f == Timing(p);
        assert p in gone + gone';
      }
    }
  }

  /** A file is gone exactly if it is an expired file, an evicted one, or the
      timing file of one of these; every other file is as before. */
  lemma GoneExactly(files: Directory, scan: seq<Text>, cfg: Config) returns (sorted: seq<Entry>, c: nat)
    requires cfg.stuck == {} && ScanFits(files, scan)
    ensures c <= |sorted| && sorted == Sort(Kept(files, scan, cfg))
    ensures Without(files, Cleanup(files, scan, cfg).files,
                    ExpiredOf(files, scan, cfg) + EvictedOf(sorted, c, cfg.protected))
  {
    hide ExpiredOf, EvictedOf, Without, Sweep, Cleanup, DistinctPaths, AllThere, Sorted, Listed, Kept;
    sorted, c := CleanupFacts(files, scan, cfg);
    WithoutTwice(files, Sweep(files, scan, cfg).files, Cleanup(files, scan, cfg).files,
                 ExpiredOf(files, scan, cfg), EvictedOf(sorted, c, cfg.protected));
  }

  // ---------- the guarantees, in terms of the directory alone ----------

  /** The audio file was evicted: it is gone although it had not expired. */
  ghost predicate Evicted(files: Directory, scan: seq<Text>, cfg: Config, path: Text)
    requires ScanFits(files, scan)
  {
    && path in scan && path !in Cleanup(files, scan, cfg).files
    && (path == cfg.protected || cfg.now - files[path].mtime <= cfg.maxAge as real)
  }

  lemma ExpiredIs(f: File, path: Text, cfg: Config)
    ensures Expired(f, path, cfg) <==> path != cfg.protected && cfg.now - f.mtime > cfg.maxAge as real
  {
  }

  lemma GoneAreAudio(files: Directory, scan: seq<Text>, cfg: Config, sorted: seq<Entry>, c: nat)
    requires cfg.stuck == {} && ScanFits(files, scan) && c <= |sorted| && sorted == Sort(Kept(files, scan, cfg))
    ensures ExpiredOf(files, scan, cfg) + EvictedOf(sorted, c, cfg.protected) <= set p | p in scan
  {
    hide Kept, Sort, IsMp3, Cleanup, Sweep, Without, CutAt, DistinctPaths, AllThere, Sorted, Listed;
    var _, _ := CleanupFacts(files, scan, cfg);
  }

  lemma AudioStays(files: Directory, scan: seq<Text>, files': Directory, gone: set<Text>)
    requires ScanFits(files, scan) && Without(files, files', gone) && gone <= set p | p in scan
    ensures forall p :: p in scan ==> (p !in files' <==> p in gone)
  {
    hide Timing, IsMp3;
    forall p | p in scan ensures p !in files' <==> p in gone {
      if p !in files' && p !in gone {
        var g :| g in gone && p == Timing(g);
        TimingFacts(g, g);
      }
    }
  }

  /** Which audio files stay, and where the evicted ones are in the order. */
  lemma WhoStays(files: Directory, scan: seq<Text>, cfg: Config) returns (sorted: seq<Entry>, c: nat)
    requires cfg.stuck == {} && ScanFits(files, scan)
    ensures c <= |sorted| && sorted == Sort(Kept(files, scan, cfg))
    ensures forall p :: p in scan ==> (p !in Cleanup(files, scan, cfg).files <==>
      p in ExpiredOf(files, scan, cfg) || p in EvictedOf(sorted, c, cfg.protected))
  {
    hide Without, Cleanup, Kept, IsMp3, Timing, ExpiredOf, Sort;
    sorted, c := GoneExactly(files, scan, cfg);
    GoneAreAudio(files, scan, cfg, sorted, c);
    AudioStays(files, scan, Cleanup(files, scan, cfg).files,
               ExpiredOf(files, scan, cfg) + EvictedOf(sorted, c, cfg.protected));
  }

  /** Every expired file but the protected one is removed. */
  lemma ExpiredGo(files: Directory, scan: seq<Text>, cfg: Config, path: Text)
    requires cfg.stuck == {} && ScanFits(files, scan) && path in scan && Expired(files[path], path, cfg)
    ensures path !in Cleanup(files, scan, cfg).files
  {
    hide Cleanup, Expired, IsMp3;
    var _, _ := WhoStays(files, scan, cfg);
  }

  lemma {:induction false} ListedBytes(files: Directory, scan: seq<Text>, cfg: Config, files': Directory)
    requires forall p :: p in scan ==> p in files && (Expired(files[p], p, cfg) ==> p !in files')
    ensures Bytes(Listed(files, scan), files') == Bytes(Kept(files, scan, cfg), files')
  {
    hide Expired;
    if scan != [] {
      var rest, path := scan[..|scan| - 1], scan[|scan| - 1];
      ListedBytes(files, rest, cfg, files');
      BytesSnoc(Listed(files, rest), EntryOf(files[path], path), files');
      if Expired(files[path], path, cfg) {
        assert Kept(files, scan, cfg) == Kept(files, rest, cfg);
      } else {
        BytesSnoc(Kept(files, rest, cfg), EntryOf(files[path], path), files');
      }
    }
  }

  /** What is left of the audio files, counted by the loop. */
  lemma TotalIsBytes(files: Directory, scan: seq<Text>, cfg: Config) returns (sorted: seq<Entry>, c: nat)
    requires cfg.stuck == {} && ScanFits(files, scan)
    ensures var s, t := Sweep(files, scan, cfg), Cleanup(files, scan, cfg);
      && CutAt(s, sorted, cfg, |sorted|, t, c)
      && t.total == Bytes(Listed(files, scan), t.files)
      && t.reclaimed + t.total == Sum(Listed(files, scan))
  {
    hide Cleanup, Sweep, Expired, Bytes, IsMp3, Without, EvictedOf, Listed, Kept, Sort, DistinctPaths, AllThere, Sorted;
    sorted, c := CleanupFacts(files, scan, cfg);
    var files' := Cleanup(files, scan, cfg).files;
    forall p | p in scan && Expired(files[p], p, cfg) ensures p !in files' { ExpiredGo(files, scan, cfg, p); }
    ListedBytes(files, scan, cfg, files');
    BytesSort(Kept(files, scan, cfg), files');
  }

  /** The files before the cut are gone. */
  lemma EvictedAreGone(files: Directory, scan: seq<Text>, cfg: Config, sorted: seq<Entry>, c: nat)
    requires cfg.stuck == {} && ScanFits(files, scan) && AllThere(sorted, Sweep(files, scan, cfg).files)
    requires CutAt(Sweep(files, scan, cfg), sorted, cfg, |sorted|, Cleanup(files, scan, cfg), c)
    ensures forall i :: 0 <= i < c && sorted[i].path != cfg.protected ==>
      sorted[i].path !in Cleanup(files, scan, cfg).files
  {
    hide Cleanup, Sweep, Bytes, IsMp3, Timing;
    forall i | 0 <= i < c && sorted[i].path != cfg.protected
      ensures sorted[i].path !in Cleanup(files, scan, cfg).files
    {
      assert sorted[i].path in EvictedOf(sorted, c, cfg.protected);
    }
  }

  lemma OnlyProtected(files: Directory, scan: seq<Text>, cfg: Config, p: Text)
    requires cfg.stuck == {} && ScanFits(files, scan) && p in scan && p in Cleanup(files, scan, cfg).files
    requires Cleanup(files, scan, cfg).total > cfg.maxBytes
    ensures p == cfg.protected
  {
    hide Cleanup, Sweep, Expired, Bytes, IsMp3, Without, Listed, Kept, Sort, DistinctPaths, AllThere, Sorted;
    var sorted, c := CleanupFacts(files, scan, cfg);
    EvictedAreGone(files, scan, cfg, sorted, c);
    if !Expired(files[p], p, cfg) {
      var e := EntryOf(files[p], p);
      assert e in sorted;
      var i :| 0 <= i < |sorted| && sorted[i] == e;
    } else {
      ExpiredGo(files, scan, cfg, p);
    }
  }

  /** The cleanup ends within the limit or with no audio file but the protected one. */
  lemma WithinLimit(files: Directory, scan: seq<Text>, cfg: Config)
    requires cfg.stuck == {} && ScanFits(files, scan)
    ensures var files' := Cleanup(files, scan, cfg).files;
      || Bytes(Listed(files, scan), files') <= cfg.maxBytes
      || forall p :: p in scan && p in files' ==> p == cfg.protected
  {
    hide Cleanup, Sweep, Expired, Bytes, IsMp3, Without, Listed, Kept, Sort;
    var sorted, c := TotalIsBytes(files, scan, cfg);
    var files' := Cleanup(files, scan, cfg).files;
    if Bytes(Listed(files, scan), files') > cfg.maxBytes {
      forall p | p in scan && p in files' ensures p == cfg.protected { OnlyProtected(files, scan, cfg, p); }
    }
  }

  /** An entry that the cut leaves is still there. */
  lemma NotEvicted(s: State, sorted: seq<Entry>, protected: Text, n: nat, files: Directory, c: nat)
    requires DistinctPaths(sorted) && AllThere(sorted, s.files) && n < |sorted| && c <= |sorted|
    requires n >= c || sorted[n].path == protected
    requires Without(s.files, files, EvictedOf(sorted, c, protected))
    ensures sorted[n].path in files
  {
    hide Timing;
    if sorted[n].path !in files {
      if p :| p in EvictedOf(sorted, c, protected) && sorted[n].path == Timing(p) {
        TimingFacts(p, p);
      }
    }
  }

  /** Where an unexpired file stands in the order, and whether it is before the cut. */
  lemma PlaceOf(files: Directory, scan: seq<Text>, cfg: Config, sorted: seq<Entry>, c: nat, p: Text) returns (i: nat)
    requires cfg.stuck == {} && ScanFits(files, scan) && p in scan && !Expired(files[p], p, cfg) && c <= |sorted|
    requires DistinctPaths(sorted) && AllThere(sorted, Sweep(files, scan, cfg).files)
    requires CutAt(Sweep(files, scan, cfg), sorted, cfg, |sorted|, Cleanup(files, scan, cfg), c)
    requires forall e :: e in sorted <==>
      e.path in scan && !Expired(files[e.path], e.path, cfg) && e == EntryOf(files[e.path], e.path)
    ensures i < |sorted| && sorted[i] == EntryOf(files[p], p)
    ensures p !in Cleanup(files, scan, cfg).files <==> i < c && p != cfg.protected
  {
    hide Cleanup, Sweep, Expired, IsMp3, Without, EvictedOf, Bytes, Timing;
    var e := EntryOf(files[p], p);
    assert e in sorted;
    i :| 0 <= i < |sorted| && sorted[i] == e;
    EvictedAreGone(files, scan, cfg, sorted, c);
    if i >= c || p == cfg.protected {
      NotEvicted(Sweep(files, scan, cfg), sorted, cfg.protected, i, Cleanup(files, scan, cfg).files, c);
    }
  }

  lemma CutInside(files: Directory, scan: seq<Text>, cfg: Config, sorted: seq<Entry>, c: nat)
    requires ScanFits(files, scan)
    requires CutAt(Sweep(files, scan, cfg), sorted, cfg, |sorted|, Cleanup(files, scan, cfg), c)
    ensures c <= |sorted|
    ensures c > 0 ==>
      sorted[c - 1].path != cfg.protected && Cleanup(files, scan, cfg).total + sorted[c - 1].size > cfg.maxBytes
  {
    hide Cleanup, Sweep, Without, EvictedOf, Bytes;
  }

  lemma EarlierIs(f: File, p: Text, g: File, q: Text)
    ensures Earlier(EntryOf(f, p), EntryOf(g, q)) <==>
      || f.mtime < g.mtime
      || (f.mtime == g.mtime && f.size < g.size)
      || (f.mtime == g.mtime && f.size == g.size && exists n: nat :: FirstDifference(p, q, n))
  {
    LessIsFirstDifference(p, q);
  }

  /** Files are evicted in the order (mtime, size, path): every evicted file
      precedes every other audio file that stays, except the protected one. */
  lemma EvictedFirst(files: Directory, scan: seq<Text>, cfg: Config, p: Text, q: Text)
    requires cfg.stuck == {} && ScanFits(files, scan) && Evicted(files, scan, cfg, p)
    requires q in scan && q in Cleanup(files, scan, cfg).files && q != cfg.protected
    ensures var f, g := files[p], files[q];
      || f.mtime < g.mtime
      || (f.mtime == g.mtime && f.size < g.size)
      || (f.mtime == g.mtime && f.size == g.size && exists n: nat :: FirstDifference(p, q, n))
  {
    EarlierIs(files[p], p, files[q], q);
    ExpiredIs(files[p], p, cfg);
    hide Cleanup, Sweep, Expired, Earlier, IsMp3, CutAt, DistinctPaths, AllThere, Without, Kept, Sort;
    hide ExpiredOf, Listed;
    var sorted, c := CleanupFacts(files, scan, cfg);
    CutInside(files, scan, cfg, sorted, c);
    if Expired(files[q], q, cfg) {
      ExpiredGo(files, scan, cfg, q);
    } else {
      var i := PlaceOf(files, scan, cfg, sorted, c, p);
      var j := PlaceOf(files, scan, cfg, sorted, c, q);
      EarlierIsStrict(sorted[i], sorted[j], sorted[i]);
    }
  }

  lemma SamePlace(sorted: seq<Entry>, i: nat, j: nat)
    requires DistinctPaths(sorted) && i < |sorted| && j < |sorted| && sorted[i].path == sorted[j].path
    ensures i == j
  {
  }

  lemma TotalOnly(files: Directory, scan: seq<Text>, cfg: Config)
    requires cfg.stuck == {} && ScanFits(files, scan)
    ensures Cleanup(files, scan, cfg).total == Bytes(Listed(files, scan), Cleanup(files, scan, cfg).files)
  {
    hide Cleanup, Sweep, Expired, IsMp3, CutAt, Listed, Bytes;
    var _, _ := TotalIsBytes(files, scan, cfg);
  }

  /** No file is evicted in vain: putting back the last one evicted would exceed the limit. */
  lemma LastEvictionWasNeeded(files: Directory, scan: seq<Text>, cfg: Config, p: Text) returns (last: Text)
    requires cfg.stuck == {} && ScanFits(files, scan) && Evicted(files, scan, cfg, p)
    ensures Evicted(files, scan, cfg, last)
    ensures Bytes(Listed(files, scan), Cleanup(files, scan, cfg).files) + files[last].size > cfg.maxBytes
    ensures p == last || Earlier(EntryOf(files[p], p), EntryOf(files[last], last))
  {
    hide Cleanup, Sweep, Expired, Earlier, IsMp3, CutAt, DistinctPaths, AllThere, Without, Kept, Sort;
    hide ExpiredOf, Listed, Bytes;
    var sorted, c := CleanupFacts(files, scan, cfg);
    CutInside(files, scan, cfg, sorted, c);
    ExpiredIs(files[p], p, cfg);
    var i := PlaceOf(files, scan, cfg, sorted, c, p);
    var e := sorted[c - 1];
    assert e in sorted;
    last := e.path;
    ExpiredIs(files[last], last, cfg);
    var j := PlaceOf(files, scan, cfg, sorted, c, last);
    SamePlace(sorted, j, c - 1);
    EarlierIsStrict(sorted[i], e, e);
    TotalOnly(files, scan, cfg);
  }

  lemma {:induction false} ListedThere(files: Directory, scan: seq<Text>)
    requires forall p :: p in scan ==> p in files
    ensures forall i :: 0 <= i < |Listed(files, scan)| ==> Listed(files, scan)[i].path in files
  {
    if scan != [] { ListedThere(files, scan[..|scan| - 1]); }
  }

  /** The bytes reported as reclaimed and the bytes left are the bytes there were. */
  lemma BytesConserved(files: Directory, scan: seq<Text>, cfg: Config)
    requires cfg.stuck == {} && ScanFits(files, scan)
    ensures var s := Cleanup(files, scan, cfg);
      s.reclaimed + Bytes(Listed(files, scan), s.files) == Bytes(Listed(files, scan), files)
  {
    hide Cleanup, Sweep, Expired, IsMp3, CutAt, Listed, Bytes;
    var _, _ := TotalIsBytes(files, scan, cfg);
    ListedThere(files, scan);
    SumIsBytes(Listed(files, scan), files);
  }

  /** A removed audio file leaves no timing file, and no other file is touched. */
  lemma NoStrayTiming(files: Directory, scan: seq<Text>, cfg: Config, f: Text)
    requires cfg.stuck == {} && ScanFits(files, scan)
    ensures var files' := Cleanup(files, scan, cfg).files;
      && (f in scan && f !in files' ==> Timing(f) !in files')
      && (f in files && f !in files' && f !in scan ==> exists p :: p in scan && p !in files' && f == Timing(p))
      && (f in files' ==> f in files && files'[f] == files[f])
  {
    hide Cleanup, Sweep, Expired, IsMp3, Timing, Kept, Sort, ExpiredOf;
    var sorted, c := GoneExactly(files, scan, cfg);
    var gone := ExpiredOf(files, scan, cfg) + EvictedOf(sorted, c, cfg.protected);
    GoneAreAudio(files, scan, cfg, sorted, c);
    AudioStays(files, scan, Cleanup(files, scan, cfg).files, gone);
    var files' := Cleanup(files, scan, cfg).files;
    if f in files && f !in files' && f !in scan {
      var p :| p in gone && f == Timing(p);
      assert p in scan && p !in files';
    }
  }

  // ---------- the guarantees, file by file ----------

  /** Every unprotected file older than the limit is removed. */
  lemma OldGo(files: Directory, scan: seq<Text>, cfg: Config, path: Text)
    requires cfg.stuck == {} && ScanFits(files, scan) && path in scan && path != cfg.protected
    requires cfg.now - files[path].mtime > cfg.maxAge as real
    ensures path !in Cleanup(files, scan, cfg).files
  {
    ExpiredIs(files[path], path, cfg);
    hide Cleanup, Expired, IsMp3;
    ExpiredGo(files, scan, cfg, path);
  }

  /** The file is protected or no older than the limit. */
  predicate IsYoung(f: File, path: Text, cfg: Config) {
    path == cfg.protected || cfg.now - f.mtime <= cfg.maxAge as real
  }

  /** The bytes of those files. */
  function YoungBytes(files: Directory, scan: seq<Text>, cfg: Config): nat
    requires forall p :: p in scan ==> p in files
  {
    if scan == [] then 0
    else
      var path := scan[|scan| - 1];
      YoungBytes(files, scan[..|scan| - 1], cfg) + if IsYoung(files[path], path, cfg) then files[path].size else 0
  }

  lemma {:induction false} SweepTotal(files: Directory, scan: seq<Text>, cfg: Config)
    requires forall p :: p in scan ==> p in files
    ensures Sweep(files, scan, cfg).total == YoungBytes(files, scan, cfg)
  {
    hide Deleted;
    if scan != [] { SweepTotal(files, scan[..|scan| - 1], cfg); }
  }

  lemma NothingEvicted(s: State, sorted: seq<Entry>, cfg: Config)
    requires s.total <= cfg.maxBytes
    ensures Evict(s, sorted, cfg) == s
  {
    hide EvictOne;
    assert sorted[..0] == [];
    EvictRest(s, sorted, 0, cfg);
  }

  /** If they fit into the limit together, all of them stay. */
  lemma YoungStay(files: Directory, scan: seq<Text>, cfg: Config, path: Text)
    requires cfg.stuck == {} && ScanFits(files, scan) && path in scan && IsYoung(files[path], path, cfg)
    requires YoungBytes(files, scan, cfg) <= cfg.maxBytes
    ensures path in Cleanup(files, scan, cfg).files
  {
    ExpiredIs(files[path], path, cfg);
    hide Sweep, Evict, Expired, IsMp3, Sort, Without, CutAt, Sorted, DistinctPaths, Listed, Kept;
    var sorted, c := CleanupFacts(files, scan, cfg);
    var s := Sweep(files, scan, cfg);
    SweepTotal(files, scan, cfg);
    SweepKeeps(files, scan, cfg);
    NothingEvicted(s, sorted, cfg);
    var e := EntryOf(files[path], path);
    assert e in sorted;
    var i :| 0 <= i < |sorted| && sorted[i] == e;
  }

  function Audio(files: Directory): set<Text> { set p | p in files && IsMp3(p) }

  lemma AudioWithout(files: Directory, path: Text)
    requires path in files && IsMp3(path)
    ensures Deleted(files, path, {}).1 && |Audio(files)| == |Audio(Deleted(files, path, {}).0)| + 1
  {
    TimingFacts(path, path);
    hide IsMp3, Timing;
    assert Audio(files) == Audio(Deleted(files, path, {}).0) + {path};
  }

  lemma {:induction false} SweepCounts(files: Directory, scan: seq<Text>, cfg: Config)
    requires cfg.stuck == {} && forall p :: p in scan ==> p in files && IsMp3(p)
    requires forall i, j :: 0 <= i < j < |scan| ==> scan[i] != scan[j]
    ensures var s := Sweep(files, scan, cfg); s.removed + |Audio(s.files)| == |Audio(files)|
  {
    hide Deleted, Expired, IsMp3, Timing, Audio;
    if scan != [] {
      var rest, path := scan[..|scan| - 1], scan[|scan| - 1];
      SweepCounts(files, rest, cfg);
      SweepRemoves(files, rest, cfg);
      var now := Sweep(files, rest, cfg).files;
      assert path in now by {
        if path !in now {
          assert path !in rest;
          if p :| p in ExpiredOf(files, rest, cfg) && path == Timing(p) { TimingFacts(p, p); }
        }
      }
      AudioWithout(now, path);
    }
  }

  lemma CutLeaves(s: State, sorted: seq<Entry>, cfg: Config, n: nat, t: State, c: nat)
    requires DistinctPaths(sorted) && AllThere(sorted, s.files) && n < |sorted| && CutAt(s, sorted, cfg, n, t, c)
    ensures sorted[n].path in t.files && IsMp3(sorted[n].path)
  {
    hide Without, EvictedOf, DistinctPaths, IsMp3;
    StillThere(s, sorted, cfg.protected, n, t.files, c);
  }

  lemma {:induction false} EvictCounts(s: State, sorted: seq<Entry>, cfg: Config, n: nat)
    requires cfg.stuck == {} && DistinctPaths(sorted) && AllThere(sorted, s.files) && n <= |sorted|
    requires s.total == Bytes(sorted, s.files)
    ensures var t := Evict(s, sorted[..n], cfg); t.removed + |Audio(t.files)| == s.removed + |Audio(s.files)|
    decreases n
  {
    hide Deleted, DistinctPaths, AllThere, Without, EvictedOf, CutAt, Bytes, Audio, IsMp3;
    if n > 0 {
      EvictCounts(s, sorted, cfg, n - 1);
      EvictSnoc(s, sorted, n - 1, cfg);
      var c := EvictCut(s, sorted, cfg, n - 1);
      var t := Evict(s, sorted[..n - 1], cfg);
      CutLeaves(s, sorted, cfg, n - 1, t, c);
      AudioWithout(t.files, sorted[n - 1].path);
    } else {
      assert sorted[..0] == [];
    }
  }

  /** The number reported as removed is the number of audio files that are gone. */
  lemma RemovedCounts(files: Directory, scan: seq<Text>, cfg: Config)
    requires cfg.stuck == {} && ScanFits(files, scan)
    ensures var s := Cleanup(files, scan, cfg); s.removed + |Audio(s.files)| == |Audio(files)|
  {
    hide Sweep, Evict, Expired, IsMp3, Sort, Without, CutAt, Sorted, DistinctPaths, AllThere, Listed, Audio, Bytes;
    var sorted, c := CleanupFacts(files, scan, cfg);
    SweepCounts(files, scan, cfg);
    SweepKeeps(files, scan, cfg);
    var s := Sweep(files, scan, cfg);
    EvictCounts(s, sorted, cfg, |sorted|);
    assert sorted[..|sorted|] == sorted;
  }

  /** What the timing file of an audio file is called. */
  lemma TimingOf(stem: Text)
    ensures IsMp3(stem + ['.' as nat, 'm' as nat, 'p' as nat, '3' as nat])
    ensures Timing(stem + ['.' as nat, 'm' as nat, 'p' as nat, '3' as nat])
         == stem + ['.' as nat, 'j' as nat, 's' as nat, 'o' as nat, 'n' as nat]
  {
    var path := stem + ['.' as nat, 'm' as nat, 'p' as nat, '3' as nat];
    assert path[|path| - 4..] == MP3 && path[..|path| - 4] == stem;
  }
}
