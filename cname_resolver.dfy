/**
  * The hostname alias cache. Every capsule directory under the data directory
  * may hold a `CNAME` file naming a hostname; the cache maps each such
  * hostname (trimmed, lower-cased) to its directory name and is rebuilt from
  * scratch at most once per 60 seconds.
  */
module CNames {
  import opened Common
  import opened Text

  const CacheTtlMs := 60 * 1000

  /** What reading `<dataDir>/<name>/CNAME` gave: its text, ENOENT, or another error. */
  datatype CNameRead = Contents(text: string) | Missing | ReadFailed(code: string)

  /** One entry of `readdir(dataDir, { withFileTypes: true })`, with the result of reading its CNAME file. */
  datatype DirEntry = DirEntry(name: string, isDirectory: bool, cname: CNameRead)

  /** The listing of the data directory a refresh sees: `None` when `readdir` itself fails. */
  type Scan = Option<seq<DirEntry>>

  /** The entries that are directories, in listing order. */
  function CapsuleDirs(entries: seq<DirEntry>): seq<DirEntry>
  {
    if entries == [] then []
    else (if entries[0].isDirectory then [entries[0]] else []) + CapsuleDirs(entries[1..])
  }

  /** The filter keeps exactly the directories of the listing. */
  lemma {:induction false} CapsuleDirsMembers(entries: seq<DirEntry>)
    ensures forall k :: 0 <= k < |CapsuleDirs(entries)| ==>
      CapsuleDirs(entries)[k].isDirectory && CapsuleDirs(entries)[k] in entries
    ensures forall k :: 0 <= k < |entries| && entries[k].isDirectory ==> entries[k] in CapsuleDirs(entries)
  {
    if entries != [] {
      CapsuleDirsMembers(entries[1..]);
      var head := if entries[0].isDirectory then [entries[0]] else [];
      var dirs := CapsuleDirs(entries);
      assert dirs == head + CapsuleDirs(entries[1..]);
      forall k | 0 <= k < |dirs| ensures dirs[k].isDirectory && dirs[k] in entries {
        if k >= |head| {
          assert dirs[k] == CapsuleDirs(entries[1..])[k - |head|];
          assert dirs[k] in entries[1..];
        }
      }
      forall k | 0 <= k < |entries| && entries[k].isDirectory ensures entries[k] in dirs {
        if k > 0 {
          assert entries[k] == entries[1..][k - 1];
        }
      }
    }
  }

  /** The hostname an entry's CNAME file announces: its trimmed, lower-cased text, if that is not empty. */
  function Alias(e: DirEntry): (a: Option<string>)
    ensures a.Some? ==> a.value != ""
  {
    match e.cname
    case Contents(text) =>
      var host := ToLower(Trim(text));
      if host != "" then Some(host) else None
    case _ => None
  }

  /** The cache a refresh builds: entries processed in order, a later alias overwriting an earlier one. */
  function CacheFrom(dirs: seq<DirEntry>): (cache: map<string, string>)
    ensures "" !in cache
  {
    if dirs == [] then map[] else Store(CacheFrom(dirs[..|dirs| - 1]), dirs[|dirs| - 1])
  }

  /** Processing one directory: its alias, if any, now names it. */
  function Store(cache: map<string, string>, e: DirEntry): (r: map<string, string>)
    ensures cache.Keys <= r.Keys
    ensures "" !in cache ==> "" !in r
  {
    match Alias(e)
    case Some(host) => cache[host := e.name]
    case None => cache
  }

  lemma CacheFromPrefix(dirs: seq<DirEntry>, i: nat)
    requires i < |dirs|
    ensures CacheFrom(dirs[..i + 1]) == Store(CacheFrom(dirs[..i]), dirs[i])
  {
    assert dirs[..i + 1][..i] == dirs[..i];
  }

  /** Reference definition: the last directory in scan order whose alias is `host`. */
  function LastOwner(dirs: seq<DirEntry>, host: string): Option<string>
  {
    if dirs == [] then None
    else if Alias(dirs[|dirs| - 1]) == Some(host) then Some(dirs[|dirs| - 1].name)
    else LastOwner(dirs[..|dirs| - 1], host)
  }

  /** The cache built by a refresh answers every hostname with its last owner. */
  lemma {:induction false} CacheIsLastOwner(dirs: seq<DirEntry>, host: string)
    ensures host in CacheFrom(dirs) <==> LastOwner(dirs, host).Some?
    ensures host in CacheFrom(dirs) ==> CacheFrom(dirs)[host] == LastOwner(dirs, host).value
  {
    if dirs != [] {
      CacheIsLastOwner(dirs[..|dirs| - 1], host);
    }
  }

  /** The later directory wins: the last one in scan order carrying alias `host` is its owner. */
  lemma {:induction false} LastOwnerIsLast(dirs: seq<DirEntry>, host: string, j: nat)
    requires j < |dirs| && Alias(dirs[j]) == Some(host)
    requires forall k :: j < k < |dirs| ==> Alias(dirs[k]) != Some(host)
    ensures LastOwner(dirs, host) == Some(dirs[j].name)
  {
    if j < |dirs| - 1 {
      var init := dirs[..|dirs| - 1];
      assert forall k :: j < k < |init| ==> init[k] == dirs[k];
      LastOwnerIsLast(init, host, j);
    }
  }

  /** Whenever `LastOwner` answers, it is the name of a directory carrying that alias, and none after it does. */
  lemma {:induction false} LastOwnerIndex(dirs: seq<DirEntry>, host: string) returns (j: nat)
    requires LastOwner(dirs, host).Some?
    ensures j < |dirs| && Alias(dirs[j]) == Some(host) && dirs[j].name == LastOwner(dirs, host).value
    ensures forall k :: j < k < |dirs| ==> Alias(dirs[k]) != Some(host)
  {
    var n := |dirs| - 1;
    if Alias(dirs[n]) == Some(host) {
      j := n;
    } else {
      var init := dirs[..n];
      j := LastOwnerIndex(init, host);
      assert dirs[j] == init[j];
      forall k | j < k < |dirs| ensures Alias(dirs[k]) != Some(host) {
        if k < n { assert dirs[k] == init[k]; }
      }
    }
  }

  /** An entry without an alias (a missing or unreadable CNAME, or blank contents) contributes nothing and stops nothing. */
  lemma {:induction false} SkippedEntryChangesNothing(xs: seq<DirEntry>, e: DirEntry, ys: seq<DirEntry>)
    requires Alias(e).None?
    ensures CacheFrom(xs + [e] + ys) == CacheFrom(xs + ys)
    decreases |ys|
  {
    if ys == [] {
      assert (xs + [e] + ys)[..|xs|] == xs;
      assert xs + ys == xs;
    } else {
      var init := ys[..|ys| - 1];
      assert (xs + [e] + ys)[..|xs + [e] + ys| - 1] == xs + [e] + init;
      assert (xs + ys)[..|xs + ys| - 1] == xs + init;
      SkippedEntryChangesNothing(xs, e, init);
    }
  }

  /**
    * Every cache entry comes from this scan: its key is the alias of a
    * directory and its value that directory's name.
    */
  lemma CacheEntriesFromDirectories(entries: seq<DirEntry>, host: string)
    requires host in CacheFrom(CapsuleDirs(entries))
    ensures host != ""
    ensures exists k :: (0 <= k < |entries| && entries[k].isDirectory
      && Alias(entries[k]) == Some(host) && entries[k].name == CacheFrom(CapsuleDirs(entries))[host])
  {
    var dirs := CapsuleDirs(entries);
    CapsuleDirsMembers(entries);
    CacheIsLastOwner(dirs, host);
    var j := LastOwnerIndex(dirs, host);
    assert dirs[j] in entries;
    var k :| 0 <= k < |entries| && entries[k] == dirs[j];
  }

  class CNameResolver {
    const dataDir: string
    var nextUpdateAt: int
    var cache: map<string, string>

    constructor(dataDir: string)
      ensures this.dataDir == dataDir && nextUpdateAt == 0 && cache == map[]
    {
      this.dataDir := dataDir;
      nextUpdateAt := 0;
      cache := map[];
    }

    /** A refresh is due at `now` when the deadline has been reached. */
    predicate RefreshDue(now: int)
      reads this
    {
      now >= nextUpdateAt
    }

    /**
      * What `maybeRefresh` leaves behind: before the deadline nothing changes;
      * otherwise the deadline moves to `now + 60 s` and the cache holds exactly
      * what this scan yields (nothing when the listing itself failed).
      */
    twostate predicate RefreshedAt(now: int, scan: Scan)
      reads this
    {
      if now < old(nextUpdateAt) then
        nextUpdateAt == old(nextUpdateAt) && cache == old(cache)
      else
        nextUpdateAt == now + CacheTtlMs
        && cache == (if scan.Some? then CacheFrom(CapsuleDirs(scan.value)) else map[])
    }

    /** `maybeRefresh`; `ok` is false when the listing of the data directory failed (the call rejects). */
    method MaybeRefresh(now: int, scan: Scan) returns (ok: bool)
      modifies this
      ensures RefreshedAt(now, scan)
      ensures ok == (now < old(nextUpdateAt) || scan.Some?)
    {
      if now < nextUpdateAt {
        return true;
      }
      nextUpdateAt := now + CacheTtlMs;
      cache := map[];
      if scan.None? {
        return false;
      }
      var dirs := CapsuleDirs(scan.value);
      var i := 0;
      while i < |dirs|
        invariant 0 <= i <= |dirs|
        invariant nextUpdateAt == now + CacheTtlMs
        invariant cache == CacheFrom(dirs[..i])
      {
        var capsuleDir := dirs[i];
        CacheFromPrefix(dirs, i);
        match capsuleDir.cname {
          case Contents(text) =>
            var contents := ToLower(Trim(text));
            if contents != "" {
              cache := cache[contents := capsuleDir.name];
            }
          case _ =>
        }
        i := i + 1;
      }
      assert dirs[..|dirs|] == dirs;
      return true;
    }

    /** `findCapsuleDir`: refresh if due, then the cached directory for exactly this hostname. */
    method FindCapsuleDir(hostname: string, now: int, scan: Scan) returns (r: Result<Option<string>, ()>)
      modifies this
      ensures RefreshedAt(now, scan)
      ensures r.Err? <==> now >= old(nextUpdateAt) && scan.None?
      ensures r.Ok? ==> r.value == (if hostname in cache then Some(cache[hostname]) else None)
    {
      var ok := MaybeRefresh(now, scan);
      if !ok {
        return Err(());
      }
      if hostname in cache {
        return Ok(Some(cache[hostname]));
      }
      return Ok(None);
    }
  }

  /**
    * A fresh resolver refreshes on its first call at any time from 0 on: the
    * call rejects exactly when the listing fails, and otherwise answers from
    * the cache this scan builds.
    */
  method FirstCallRefreshes(dataDir: string, hostname: string, now: int, scan: Scan) returns (r: Result<Option<string>, ()>)
    requires now >= 0
    ensures r.Err? <==> scan.None?
    ensures r.Ok? ==>
      (r.value == if hostname in CacheFrom(CapsuleDirs(scan.value)) then Some(CacheFrom(CapsuleDirs(scan.value))[hostname]) else None)
  {
    var resolver := new CNameResolver(dataDir);
    r := resolver.FindCapsuleDir(hostname, now, scan);
  }
}
