/** The synchronization pass as the program runs it: it changes the replica directory tree
    step by step through the filesystem primitives, and logs each change. */
module SyncEngine {
  import opened FileTree
  import opened Comparator
  import opened Mirror

  /** One record of the durable log, without its timestamp and wording. */
  datatype Event =
    | ReplicaRecreated(path: Path)
    | CreatedDir(path: Path)
    | CopiedFile(path: Path)
    | DeletedFile(path: Path)
    | DeletedDir(path: Path)

  /** How a pass ends: normally, or by the exception a failed listing raises. */
  datatype Status = Completed | Failed(error: FsError)

  function StatusOf(r: Result<Entry>): Status {
    match r
    case Ok(_) => Completed
    case Err(e) => Failed(e)
  }

  /** The replica side of the filesystem: the replica root (None when it does not exist) and
      the log written so far. Paths are relative to the replica root. */
  class Replica {
    var tree: Option<Entry>
    var events: seq<Event>

    constructor (initial: Option<Entry>)
      ensures tree == initial && events == []
    {
      tree := initial;
      events := [];
    }

    /** os.path.exists: the root exists when there is one; any other entry exists exactly
        when its name is listed in its parent directory. */
    function Exists(p: Path): (b: bool)
      reads this
      ensures p == [] ==> (b <==> tree.Some?)
      ensures p != [] ==> (b <==>
        (IsDirAt(tree, p[..|p| - 1]) && p[|p| - 1] in Get(tree, p[..|p| - 1]).value.children))
    {
      ExistsInParent(tree, p);
      Get(tree, p).Some?
    }

    /** os.listdir: the names inside a directory; listing anything else fails. */
    method ListDir(p: Path) returns (r: Result<set<Name>>)
      ensures r.Ok? <==> IsDirAt(tree, p)
      ensures r.Ok? ==> forall n :: n in r.value <==> Get(tree, p + [n]).Some?
      ensures r.Err? ==> r.error == ReplicaNotListable
    {
      if IsDirAt(tree, p) {
        r := Ok(Get(tree, p).value.children.Keys);
        forall n ensures n in r.value <==> Get(tree, p + [n]).Some? {
          GetAppend(tree, p, n);
        }
      } else {
        r := Err(ReplicaNotListable);
      }
    }

    /** os.makedirs, as the pass calls it: on a missing entry whose parent is a directory. */
    method MakeDirs(p: Path)
      requires Reachable(tree, p) && Get(tree, p) == None
      modifies this`tree
      ensures tree == Put(old(tree), p, Some(Dir(map[])))
    {
      tree := Put(tree, p, Some(Dir(map[])));
    }

    /** shutil.copy2 of a source file to a missing replica entry (metadata left out). */
    method Copy2(p: Path, file: Entry)
      requires file.File? && Reachable(tree, p) && Get(tree, p) == None
      modifies this`tree
      ensures tree == Put(old(tree), p, Some(file))
    {
      tree := Put(tree, p, Some(file));
    }

    /** os.remove of a file or a link. */
    method Remove(p: Path)
      requires Get(tree, p).Some? && (Get(tree, p).value.File? || Get(tree, p).value.Link?)
      modifies this`tree
      ensures tree == Put(old(tree), p, None)
    {
      tree := Put(tree, p, None);
    }

    /** shutil.rmtree: a directory with its whole subtree. */
    method RmTree(p: Path)
      requires IsDirAt(tree, p)
      modifies this`tree
      ensures tree == Put(old(tree), p, None)
    {
      tree := Put(tree, p, None);
    }

    method Log(e: Event)
      modifies this`events
      ensures events == old(events) + [e]
    {
      events := events + [e];
    }

    /** One pass over the source directory src and the replica directory at p. On completion
        the replica directory at p is what Mirror.SyncResult says; a failure is reported as it
        says too. A failed source listing, a replica non-directory and a pass with nothing to do
        change nothing. The log only grows. */
    method Synchronize(src: Option<Entry>, p: Path) returns (status: Status)
      requires Reachable(tree, p)
      modifies this
      decreases if src.Some? then src.value else Special, 3
      ensures status == StatusOf(SyncResult(src, old(Get(tree, p))))
      ensures status.Completed? ==>
        tree == Put(old(tree), p, Some(SyncResult(src, old(Get(tree, p))).value))
      ensures !(src.Some? && src.value.Dir?) ==> tree == old(tree) && events == old(events)
      ensures old(Get(tree, p)).Some? && !old(Get(tree, p)).value.Dir? ==>
        tree == old(tree) && events == old(events)
      ensures Quiet(src, old(Get(tree, p))) ==> tree == old(tree) && events == old(events)
      ensures old(events) <= events
      ensures src.Some? && src.value.Dir? && old(Get(tree, p)) == None ==>
        old(events) + [ReplicaRecreated(p)] <= events
    {
      if !(src.Some? && src.value.Dir?) {
        return Failed(SourceNotListable);
      }
      var source := src.value;
      var sourceNames := source.children.Keys;
      ghost var t0 := tree;
      ghost var rep0 := Get(tree, p);
      if Quiet(src, rep0) {
        QuietPassChangesNothing(src, rep0);
        PutSame(t0, p);
      }

      if !Exists(p) {
        MakeDirs(p);
        Log(ReplicaRecreated(p));
        assert old(events) + [ReplicaRecreated(p)] <= events;
        PutPut(t0, p, Some(Dir(map[])), Some(Dir(map[])));
        GetPut(t0, p, Some(Dir(map[])));
      }
      var listing := ListDir(p);
      if listing.Err? {
        return Failed(ReplicaNotListable);
      }
      var replicaNames := listing.value;
      ghost var r := Get(tree, p).value.children;
      assert r == ReplicaListing(rep0);
      assert replicaNames == r.Keys by {
        forall n ensures n in replicaNames <==> n in r {
          GetAppend(tree, p, n);
        }
      }
      if rep0.Some? {
        PutSame(t0, p);
      }
      var d := Diff(sourceNames, replicaNames);
      ghost var cur;
      status, cur := SyncSourceEntries(t0, p, source, r, replicaNames);
      if status.Failed? {
        return;
      }
      cur := DeleteReplicaEntries(t0, p, source, r, d.toDelete, cur);
      forall n ensures Child(cur, n) == Child(Pass(source, r), n) {
        PassAt(source, r, n);
      }
      ListingExt(cur, Pass(source, r));
    }

    /** synchronize_folders.py, lines 74-93: the loop over every source entry of the directory at p, whose listing was r.
        It stops at the first nested failure; otherwise every source name has been dealt with. */
    method SyncSourceEntries(ghost t0: Option<Entry>, p: Path, source: Entry, ghost r: map<Name, Entry>,
                             replicaNames: set<Name>)
      returns (st: Status, ghost cur: map<Name, Entry>)
      requires source.Dir? && replicaNames == r.Keys
      requires Reachable(t0, p) && tree == Put(t0, p, Some(Dir(r)))
      modifies this
      decreases source, 2
      ensures st.Completed? <==> !Fails(source, r)
      ensures st.Failed? ==> st == Failed(ReplicaNotListable)
      ensures st.Completed? ==> tree == Put(t0, p, Some(Dir(cur)))
      ensures st.Completed? ==> forall n :: (Child(cur, n) ==
        if n in source.children then ChildAfterPass(source, r, n) else Child(r, n))
      ensures old(events) <= events
      ensures QuietDir(source, r) ==> events == old(events)
    {
      var sourceNames := source.children.Keys;
      cur := r;
      var todo := sourceNames;
      while todo != {}
        invariant todo <= sourceNames
        invariant tree == Put(t0, p, Some(Dir(cur)))
        invariant forall n :: (Child(cur, n) ==
          if n in sourceNames && n !in todo then ChildAfterPass(source, r, n) else Child(r, n))
        invariant forall n :: n in sourceNames && n !in todo ==> !ChildFails(source, r, n)
        invariant old(events) <= events
        invariant QuietDir(source, r) ==> events == old(events)
        decreases todo
      {
        var c :| c in todo;
        ghost var prev := cur;
        st, cur := SyncSourceEntry(t0, p, source, r, replicaNames, c, cur);
        if st.Failed? {
          return;
        }
        forall n ensures Child(cur, n) ==
          if n in sourceNames && n !in todo - {c} then ChildAfterPass(source, r, n) else Child(r, n)
        {
          if n != c {
            assert Child(cur, n) == Child(prev, n);
          }
        }
        todo := todo - {c};
      }
      st := Completed;
    }

    /** synchronize_folders.py, lines 96-111: the loop over the replica-only names of the directory at p. */
    method DeleteReplicaEntries(ghost t0: Option<Entry>, p: Path, source: Entry, ghost r: map<Name, Entry>,
                                toDelete: set<Name>, ghost cur0: map<Name, Entry>)
      returns (ghost cur: map<Name, Entry>)
      requires source.Dir? && toDelete == r.Keys - source.children.Keys
      requires Reachable(t0, p) && tree == Put(t0, p, Some(Dir(cur0)))
      requires forall n :: (Child(cur0, n) ==
        if n in source.children then ChildAfterPass(source, r, n) else Child(r, n))
      modifies this
      ensures tree == Put(t0, p, Some(Dir(cur)))
      ensures forall n :: Child(cur, n) == ChildAfterPass(source, r, n)
      ensures old(events) <= events
      ensures QuietDir(source, r) ==> events == old(events)
    {
      cur := cur0;
      var todo := toDelete;
      while todo != {}
        invariant todo <= toDelete
        invariant tree == Put(t0, p, Some(Dir(cur)))
        invariant forall n :: (Child(cur, n) ==
          if n in source.children || (n in toDelete && n !in todo) then ChildAfterPass(source, r, n)
          else Child(r, n))
        invariant old(events) <= events
        invariant QuietDir(source, r) ==> events == old(events)
        decreases todo
      {
        var c :| c in todo;
        ghost var prev := cur;
        cur := DeleteReplicaEntry(t0, p, source, r, c, cur);
        forall n ensures Child(cur, n) ==
          if n in source.children || (n in toDelete && n !in todo - {c}) then ChildAfterPass(source, r, n)
          else Child(r, n)
        {
          if n != c {
            assert Child(cur, n) == Child(prev, n);
          }
        }
        todo := todo - {c};
      }
    }

    /** The first loop's work for the source entry c of the directory at p, whose listing was r
        and is cur so far: a directory is created when missing and then recursed into, a file is
        copied when its name was not listed, anything else is skipped. */
    method SyncSourceEntry(ghost t0: Option<Entry>, p: Path, source: Entry, ghost r: map<Name, Entry>,
                           replicaNames: set<Name>, c: Name, ghost cur: map<Name, Entry>)
      returns (st: Status, ghost next: map<Name, Entry>)
      requires source.Dir? && c in source.children && replicaNames == r.Keys
      requires Reachable(t0, p) && tree == Put(t0, p, Some(Dir(cur)))
      requires Child(cur, c) == Child(r, c)
      modifies this
      decreases source, 1
      ensures st.Completed? <==> !ChildFails(source, r, c)
      ensures st.Failed? ==> st == Failed(ReplicaNotListable)
      ensures st.Completed? ==> next == Update(cur, c, ChildAfterPass(source, r, c))
      ensures st.Completed? ==> tree == Put(t0, p, Some(Dir(next)))
      ensures old(events) <= events
      ensures QuietDir(source, r) ==> events == old(events)
    {
      var entry := source.children[c];
      match entry {
        case Dir(_) =>
          SubdirectoryOutcome(source, r, c);
          st, next := SyncSubdirectory(t0, p, entry, c, cur);
        case File(_) =>
          st := Completed;
          next := CopyIfMissing(t0, p, entry, c, c in replicaNames, cur);
        case _ =>
          st := Completed;
          next := cur;
          ListingExt(next, Update(cur, c, Child(r, c)));
      }
    }

    /** synchronize_folders.py, lines 77-85: the source directory entry called c. It is created in the replica when
        missing, and then synchronized recursively in every case. */
    method SyncSubdirectory(ghost t0: Option<Entry>, p: Path, entry: Entry, c: Name, ghost cur: map<Name, Entry>)
      returns (st: Status, ghost next: map<Name, Entry>)
      requires entry.Dir?
      requires Reachable(t0, p) && tree == Put(t0, p, Some(Dir(cur)))
      modifies this
      decreases entry, 4
      ensures st == StatusOf(SyncResult(Some(entry), Child(cur, c)))
      ensures st.Completed? ==>
        next == Update(cur, c, Some(SyncResult(Some(entry), Child(cur, c)).value)) &&
        tree == Put(t0, p, Some(Dir(next)))
      ensures old(events) <= events
      ensures Quiet(Some(entry), Child(cur, c)) ==> events == old(events)
      ensures c !in cur ==> old(events) + [CreatedDir(p + [c])] <= events
    {
      PutChild(t0, p, cur, c, None);
      next := cur;
      if !Exists(p + [c]) {
        MakeDirs(p + [c]);
        Log(CreatedDir(p + [c]));
        PutChild(t0, p, cur, c, Some(Dir(map[])));
        next := Update(cur, c, Some(Dir(map[])));
        PutChild(t0, p, next, c, None);
        MissingReplicaIsEmpty(Some(entry));
      }
      ghost var before := Get(tree, p + [c]);
      st := Synchronize(Some(entry), p + [c]);
      if st.Completed? {
        ghost var x := SyncResult(Some(entry), before).value;
        PutChild(t0, p, next, c, Some(x));
        next := Update(next, c, Some(x));
        ListingExt(next, Update(cur, c, Some(x)));
      }
    }

    /** synchronize_folders.py, lines 86-93: the source file entry called c is copied only when the replica listing did
        not hold its name. */
    method CopyIfMissing(ghost t0: Option<Entry>, p: Path, file: Entry, c: Name, listed: bool,
                         ghost cur: map<Name, Entry>)
      returns (ghost next: map<Name, Entry>)
      requires file.File? && listed == (c in cur)
      requires Reachable(t0, p) && tree == Put(t0, p, Some(Dir(cur)))
      modifies this
      ensures next == if listed then cur else cur[c := file]
      ensures tree == Put(t0, p, Some(Dir(next)))
      ensures listed ==> events == old(events)
      ensures !listed ==> events == old(events) + [CopiedFile(p + [c])]
    {
      next := cur;
      if !listed {
        PutChild(t0, p, cur, c, None);
        Copy2(p + [c], file);
        Log(CopiedFile(p + [c]));
        PutChild(t0, p, cur, c, Some(file));
        next := Update(cur, c, Some(file));
      }
    }

    /** The second loop's work for the replica-only entry c of the directory at p: a file or a
        link is removed, a directory is removed with its subtree, anything else stays. */
    method DeleteReplicaEntry(ghost t0: Option<Entry>, p: Path, source: Entry, ghost r: map<Name, Entry>,
                              c: Name, ghost cur: map<Name, Entry>)
      returns (ghost next: map<Name, Entry>)
      requires source.Dir? && c in r && c !in source.children
      requires Reachable(t0, p) && tree == Put(t0, p, Some(Dir(cur)))
      requires Child(cur, c) == Child(r, c)
      modifies this
      ensures next == Update(cur, c, ChildAfterPass(source, r, c))
      ensures tree == Put(t0, p, Some(Dir(next)))
      ensures old(events) <= events
      ensures r[c].Special? ==> events == old(events)
      ensures r[c].File? || r[c].Link? ==> events == old(events) + [DeletedFile(p + [c])]
      ensures r[c].Dir? ==> events == old(events) + [DeletedDir(p + [c])]
    {
      PutChild(t0, p, cur, c, None);
      var entry := Get(tree, p + [c]).value;
      next := cur;
      if entry.File? || entry.Link? {
        if c !in source.children {
          Remove(p + [c]);
          Log(DeletedFile(p + [c]));
          next := Update(cur, c, None);
        }
      } else if entry.Dir? {
        RmTree(p + [c]);
        Log(DeletedDir(p + [c]));
        next := Update(cur, c, None);
      } else {
        ListingExt(next, Update(cur, c, Child(r, c)));
      }
    }
  }

  /** Two passes in a row over an unchanged source, starting from the replica state initial.
      A failed pass raises out of the program, so the second pass runs only after the first
      completes; it then completes too, logs nothing and leaves the replica as the first left it. */
  method TwoPasses(src: Option<Entry>, initial: Option<Entry>)
    returns (first: Status, second: Status, afterFirst: Option<Entry>, afterSecond: Option<Entry>,
             secondLog: seq<Event>)
    ensures first == StatusOf(SyncResult(src, initial))
    ensures first.Completed? ==> afterFirst == Some(SyncResult(src, initial).value)
    ensures first.Completed? ==> second.Completed? && afterSecond == afterFirst && secondLog == []
    ensures first.Failed? ==> second == first && afterSecond == afterFirst && secondLog == []
  {
    var fs := new Replica(initial);
    first := fs.Synchronize(src, []);
    afterFirst := fs.tree;
    if first.Failed? {
      second, afterSecond, secondLog := first, afterFirst, [];
      return;
    }
    var logged := fs.events;
    SecondPassIsQuiet(src.value, initial);
    QuietPassChangesNothing(src, afterFirst);
    second := fs.Synchronize(src, []);
    afterSecond := fs.tree;
    secondLog := fs.events[|logged|..];
  }

  /** Self-healing: a pass that finds the replica root missing recreates it, logs that first,
      and rebuilds the whole source tree of plain files and directories. */
  method RebuildMissingReplica(src: Entry) returns (status: Status, after: Option<Entry>, log: seq<Event>)
    requires src.Dir? && Plain(src)
    ensures status.Completed? && after == Some(src)
    ensures |log| > 0 && log[0] == ReplicaRecreated([])
  {
    var fs := new Replica(None);
    MissingReplicaRebuilt(src);
    status := fs.Synchronize(Some(src), []);
    after := fs.tree;
    log := fs.events;
  }
}
