/**
 The sweep of stale transform caches (`newestFileMtime`, `isVitestTmpCache`,
 `sweepStaleVitestTmp`, scripts/vitest-tmp-cleanup.ts), over an arbitrary directory
 tree in which any directory may be unreadable and any file may fail to stat.
 */
module TmpSweep {
  import opened Lists
  import opened ProcessTree
  import opened Wrappers

  // ---------- Directory trees ----------

  /**
   A directory with its listing, a directory that cannot be listed, or anything else (a file, a link) with the
   time `stat` reports, None where the call throws.
   */
  datatype Node = Dir(listing: seq<Entry>) | LockedDir | Other(mtime: Option<real>)

  datatype Entry = Entry(name: string, node: Node)

  datatype IoError = IoError

  /** The times of all files at any depth, as far as they can be read. */
  function MtimesIn(node: Node): seq<real>
    decreases node, 1
  {
    match node
    case Dir(listing) => Mtimes(listing)
    case LockedDir => []
    case Other(mtime) => if mtime.Some? then [mtime.value] else []
  }

  function Mtimes(entries: seq<Entry>): seq<real>
    decreases entries, 0
  {
    if entries == [] then [] else MtimesIn(entries[0].node) + Mtimes(entries[1..])
  }

  /** Every directory below can be listed and every file has a time. */
  predicate ReadableNode(node: Node)
    decreases node, 1
  {
    match node
    case Dir(listing) => Readable(listing)
    case LockedDir => false
    case Other(mtime) => mtime.Some?
  }

  predicate Readable(entries: seq<Entry>)
    decreases entries, 0
  {
    entries == [] || (ReadableNode(entries[0].node) && Readable(entries[1..]))
  }

  // ---------- The newest file ----------

  function Newer(newest: Option<real>, m: real): Option<real> {
    if newest.None? || m > newest.value then Some(m) else newest
  }

  /** One directory entry: a file updates the newest time so far, a directory is walked, an error stops. */
  function WalkedNode(node: Node, newest: Option<real>): Result<Option<real>, IoError>
    decreases node, 1
  {
    match node
    case Dir(listing) => Walked(listing, newest)
    case LockedDir => Err(IoError)
    case Other(mtime) => if mtime.Some? then Ok(Newer(newest, mtime.value)) else Err(IoError)
  }

  function Walked(entries: seq<Entry>, newest: Option<real>): Result<Option<real>, IoError>
    decreases entries, 0
  {
    if entries == [] then Ok(newest)
    else
      match WalkedNode(entries[0].node, newest)
      case Err(e) => Err(e)
      case Ok(n) => Walked(entries[1..], n)
  }

  method Walk(dir: Node, newest0: Option<real>) returns (r: Result<Option<real>, IoError>)
    ensures r == if dir.Other? then Err(IoError) else WalkedNode(dir, newest0)
    decreases dir
  {
    if !dir.Dir? { return Err(IoError); }
    var newest, entries := newest0, dir.listing;
    for i := 0 to |entries|
      invariant Walked(entries[i..], newest) == Walked(entries, newest0)
    {
      assert entries[i..][1..] == entries[i + 1..] && entries[i..][0] == entries[i];
      var entry := entries[i].node;
      if !entry.Other? {
        var inner := Walk(entry, newest);
        if inner.Err? { return inner; }
        newest := inner.value;
      } else {
        if entry.mtime.None? { return Err(IoError); }
        newest := Newer(newest, entry.mtime.value);
      }
    }
    return Ok(newest);
  }

  method NewestFileMtime(dir: Node) returns (r: Result<Option<real>, IoError>)
    ensures r == NewestOf(dir)
  {
    r := Walk(dir, None);
  }

  function NewestOf(dir: Node): Result<Option<real>, IoError> {
    if dir.Other? then Err(IoError) else WalkedNode(dir, None)
  }

  /** `n` is the newest of `newest` and the listed times, and None exactly when there are none. */
  ghost predicate IsNewest(n: Option<real>, newest: Option<real>, times: seq<real>) {
    && (n.None? <==> newest.None? && times == [])
    && (n.Some? ==> (n == newest || n.value in times))
    && (n.Some? ==> (newest.Some? ==> newest.value <= n.value) && forall m :: m in times ==> m <= n.value)
  }

  lemma NewestChain(a: Option<real>, b: Option<real>, c: Option<real>, s: seq<real>, t: seq<real>)
    requires IsNewest(b, a, s) && IsNewest(c, b, t)
    ensures IsNewest(c, a, s + t)
  {
  }

  lemma {:induction false} WalkNodeFindsNewest(node: Node, newest: Option<real>)
    ensures WalkedNode(node, newest).Ok? <==> ReadableNode(node)
    ensures WalkedNode(node, newest).Ok? ==> IsNewest(WalkedNode(node, newest).value, newest, MtimesIn(node))
    decreases node, 1
  {
    if node.Dir? {
      WalkFindsNewest(node.listing, newest);
    }
  }

  /** The walk succeeds exactly on readable trees, and then finds the newest of all files at any depth. */
  lemma {:induction false} WalkFindsNewest(entries: seq<Entry>, newest: Option<real>)
    ensures Walked(entries, newest).Ok? <==> Readable(entries)
    ensures Walked(entries, newest).Ok? ==> IsNewest(Walked(entries, newest).value, newest, Mtimes(entries))
    decreases entries, 0
  {
    if entries != [] {
      var head, rest := entries[0].node, entries[1..];
      WalkNodeFindsNewest(head, newest);
      if WalkedNode(head, newest).Ok? {
        var n := WalkedNode(head, newest).value;
        WalkFindsNewest(rest, n);
        if Walked(rest, n).Ok? {
          NewestChain(newest, n, Walked(rest, n).value, MtimesIn(head), Mtimes(rest));
        }
      }
    }
  }

  // ---------- The exact shape of a cache ----------

  predicate IsNanoidChar(c: char) {
    'A' <= c <= 'Z' || 'a' <= c <= 'z' || '0' <= c <= '9' || c == '_' || c == '-'
  }

  predicate IsNanoid(name: string) {
    |name| == 21 && forall i :: 0 <= i < 21 ==> IsNanoidChar(name[i])
  }

  predicate HoldsOnlySsr(children: seq<Entry>) {
    |children| == 1 && children[0].name == "ssr" && !children[0].node.Other?
  }

  /** An entry of the temp dir with this name; None when it is gone. */
  function IsVitestTmpCache(name: string, node: Option<Node>): Result<bool, IoError> {
    if !IsNanoid(name) then Ok(false)
    else
      match node
      case None => Err(IoError)
      case Some(Other(_)) => Ok(false)
      case Some(LockedDir) => Err(IoError)
      case Some(Dir(children)) => Ok(HoldsOnlySsr(children))
  }

  /** The shape of a cache; and when looking for it fails: a name of that form whose entry is gone or cannot be listed. */
  lemma CacheShape(name: string, node: Option<Node>)
    ensures IsVitestTmpCache(name, node) == Ok(true) <==>
      && IsNanoid(name) && node.Some? && node.value.Dir?
      && |node.value.listing| == 1 && node.value.listing[0].name == "ssr" && !node.value.listing[0].node.Other?
    ensures IsVitestTmpCache(name, node).Err? <==> IsNanoid(name) && (node.None? || node.value.LockedDir?)
  {
  }

  // ---------- The sweep ----------

  type Files = map<string, Node>

  function Lookup(files: Files, name: string): Option<Node> {
    if name in files then Some(files[name]) else None
  }

  /** The test an entry has to pass to be removed. */
  function Stale(name: string, node: Option<Node>, now: real, staleMs: real): bool {
    IsVitestTmpCache(name, node) == Ok(true)
    && node.Some?
    && match NewestOf(node.value)
       case Ok(Some(newest)) => now - newest >= staleMs
       case _ => false
  }

  /** What passing the test means: the exact shape, readable throughout, with files, all of them old. */
  lemma StaleMeaning(name: string, node: Node, now: real, staleMs: real)
    ensures Stale(name, Some(node), now, staleMs) <==>
      && |name| == 21
      && (forall i :: 0 <= i < 21 ==>
            'A' <= name[i] <= 'Z' || 'a' <= name[i] <= 'z' || '0' <= name[i] <= '9' || name[i] == '_' || name[i] == '-')
      && node.Dir? && |node.listing| == 1 && node.listing[0].name == "ssr" && node.listing[0].node.Dir?
      && Readable(node.listing)
      && Mtimes(node.listing) != []
      && forall m :: m in Mtimes(node.listing) ==> now - m >= staleMs
  {
    if node.Dir? {
      WalkFindsNewest(node.listing, None);
    }
  }

  function StaleNames(files: Files, names: seq<string>, now: real, staleMs: real, rmFails: string -> bool): seq<string> {
    if names == [] then []
    else
      var last := names[|names| - 1];
      StaleNames(files, names[..|names| - 1], now, staleMs, rmFails)
      + if Stale(last, Lookup(files, last), now, staleMs) && !rmFails(last) then [last] else []
  }

  lemma {:induction false} StaleNamesMembers(files: Files, names: seq<string>, now: real, staleMs: real, rmFails: string -> bool)
    ensures forall n :: n in StaleNames(files, names, now, staleMs, rmFails) <==>
      n in names && Stale(n, Lookup(files, n), now, staleMs) && !rmFails(n)
  {
    if names != [] {
      StaleNamesMembers(files, names[..|names| - 1], now, staleMs, rmFails);
      assert names == names[..|names| - 1] + [names[|names| - 1]];
    }
  }

  /** What the loop has done after the entries `names`. */
  ghost predicate Swept(before: Files, files: Files, names: seq<string>, removed: seq<string>, now: real, staleMs: real,
                        rmFails: string -> bool) {
    && removed == StaleNames(before, names, now, staleMs, rmFails)
    && files == before - (set n | n in removed)
    && forall n :: n in removed ==> n in names
  }

  lemma SweepNone(files: Files, now: real, staleMs: real, rmFails: string -> bool)
    ensures Swept(files, files, [], [], now, staleMs, rmFails)
  {
  }

  lemma SweptMeans(before: Files, files: Files, names: seq<string>, removed: seq<string>, now: real, staleMs: real,
                   rmFails: string -> bool)
    requires Swept(before, files, names, removed, now, staleMs, rmFails)
    ensures removed == StaleNames(before, names, now, staleMs, rmFails) && files == before - set n | n in removed
  {
  }

  /** The next entry is still what it was, and is removed exactly when it is stale and can be. */
  lemma SweepOne(before: Files, files: Files, names: seq<string>, removed: seq<string>, now: real, staleMs: real,
                 rmFails: string -> bool, name: string)
    requires Swept(before, files, names, removed, now, staleMs, rmFails) && name !in names
    ensures if Stale(name, Lookup(files, name), now, staleMs) && !rmFails(name)
      then Swept(before, files - {name}, names + [name], removed + [name], now, staleMs, rmFails)
      else Swept(before, files, names + [name], removed, now, staleMs, rmFails)
  {
    hide Stale;
    assert (names + [name])[..|names|] == names;
    assert Lookup(files, name) == Lookup(before, name);
    assert (set n | n in removed + [name]) == (set n | n in removed) + {name};
  }

  /** They keep the order of the listing. */
  lemma {:induction false} StaleNamesInOrder(files: Files, names: seq<string>, now: real, staleMs: real, rmFails: string -> bool)
    returns (at: seq<nat>)
    ensures IsPart(at, |names|) && StaleNames(files, names, now, staleMs, rmFails) == Pick(names, at)
    ensures forall i: nat :: i < |names| ==> (i in at <==> Stale(names[i], Lookup(files, names[i]), now, staleMs) && !rmFails(names[i]))
  {
    hide Stale, Lookup;
    if names == [] {
      at := [];
    } else {
      var before, last := names[..|names| - 1], names[|names| - 1];
      at := StaleNamesInOrder(files, before, now, staleMs, rmFails);
      at := KeepSnoc(before, last, at, Stale(last, Lookup(files, last), now, staleMs) && !rmFails(last));
      assert names == before + [last];
    }
  }

  class TmpDir {
    var files: Files

    /**
     `now` is None when it is not a finite number, `names` when the directory cannot be listed; a listing
     names no entry twice, but an entry may be gone by the time it is looked at.
     */
    method SweepStale(othersRunning: bool, now: Option<real>, staleMs: real, names: Option<seq<string>>, rmFails: string -> bool)
      returns (removed: seq<string>)
      requires names.Some? ==> Distinct(names.value)
      modifies this
      ensures othersRunning || now.None? || names.None? ==> removed == []
      ensures !othersRunning && now.Some? && names.Some? ==>
        removed == StaleNames(old(files), names.value, now.value, staleMs, rmFails)
      ensures files == old(files) - set n | n in removed
    {
      removed := [];
      if othersRunning { return; }
      if now.None? { return; }
      if names.None? { return; }
      hide Swept;
      var list, time := names.value, now.value;
      SweepNone(files, time, staleMs, rmFails);
      for i := 0 to |list|
        invariant Swept(old(files), files, list[..i], removed, time, staleMs, rmFails)
      {
        var name := list[i];
        assert list[..i + 1] == list[..i] + [name] && name !in list[..i];
        SweepOne(old(files), files, list[..i], removed, time, staleMs, rmFails, name);
        var node := Lookup(files, name);
        var isCache := IsVitestTmpCache(name, node);
        if isCache.Err? || !isCache.value { continue; }
        var newest := NewestFileMtime(node.value);
        if newest.Err? || newest.value.None? { continue; }
        var ageMs := time - newest.value.value;
        if ageMs < staleMs { continue; }
        if rmFails(name) { continue; }
        files := files - {name};
        removed := removed + [name];
      }
      assert list[..|list|] == list;
      SweptMeans(old(files), files, list, removed, time, staleMs, rmFails);
    }

    /** The sweep as it is called: it asks the process table first. */
    method Sweep(table: Option<seq<Row>>, self: nat, isRunner: string -> bool, now: Option<real>, staleMs: real,
                 names: Option<seq<string>>, rmFails: string -> bool) returns (removed: seq<string>)
      requires names.Some? ==> Distinct(names.value)
      modifies this
      ensures files == old(files) - set n | n in removed
      ensures table.None? ==> removed == []
      ensures table.Some? && (exists r :: r in table.value && isRunner(r.cmd) && !IsRelated(ParentsOf(table.value), r.pid, self))
        ==> removed == []
      ensures forall n :: n in removed ==>
        n in old(files) && now.Some? && Stale(n, Some(old(files)[n]), now.value, staleMs)
      ensures table.Some? && Foreign(table.value, ParentsOf(table.value), self, isRunner) == [] && now.Some? && names.Some? ==>
        forall n :: n in names.value && n in old(files) && Stale(n, Some(old(files)[n]), now.value, staleMs) && !rmFails(n)
          ==> n in removed
    {
      var others := OtherVitestRunning(table, self, isRunner);
      if table.Some? {
        forall r | r in table.value && isRunner(r.cmd) && !IsRelated(ParentsOf(table.value), r.pid, self) ensures others {
          ForeignNeverHidden(table.value, self, isRunner, r);
        }
      }
      removed := SweepStale(others, now, staleMs, names, rmFails);
      if !others && now.Some? && names.Some? {
        StaleNamesMembers(old(files), names.value, now.value, staleMs, rmFails);
      }
    }
  }
}
