/** What one synchronization pass makes of a replica directory, as a function of the source
    directory and the replica directory it finds, and the properties of that result. */
module Mirror {
  import opened FileTree
  import opened Comparator

  /** Why a pass stops: a listing of a source or of a replica directory fails. */
  datatype FsError = SourceNotListable | ReplicaNotListable

  datatype Result<T> = Ok(value: T) | Err(error: FsError)

  /** The replica listing a pass works from: a missing replica directory is created first,
      so it is listed as empty. */
  function ReplicaListing(rep: Option<Entry>): map<Name, Entry> {
    match rep
    case Some(Dir(m)) => m
    case _ => map[]
  }

  /** The entry called n in the replica directory after a pass that found listing r there and
      the source directory src. None means that there is no such entry. */
  function ChildAfterPass(src: Entry, r: map<Name, Entry>, n: Name): Option<Entry>
    requires src.Dir?
    decreases src, 0
  {
    var s := src.children;
    if n in s then
      match s[n]
      // created when missing, then always recursed into
      case Dir(_) =>
        if n !in r then Some(Dir(Pass(s[n], map[])))
        else if r[n].Dir? then Some(Dir(Pass(s[n], r[n].children)))
        else Some(r[n])
      // copied only when its name was missing from the replica
      case File(_) => if n in r then Some(r[n]) else Some(s[n])
      // neither a directory nor a regular file: skipped
      case _ => Child(r, n)
    // replica only: files, links and directories are deleted, anything else is kept
    else if n in r && r[n].Special? then Some(r[n])
    else None
  }

  /** The listing of the replica directory after a pass that does not fail. */
  function Pass(src: Entry, r: map<Name, Entry>): map<Name, Entry>
    requires src.Dir?
    decreases src, 1
  {
    map n | n in src.children.Keys + r.Keys && ChildAfterPass(src, r, n).Some?
      :: ChildAfterPass(src, r, n).value
  }

  /** The source subdirectory n cannot be synchronized: the replica has a non-directory
      under that name, or the pass fails further down. */
  predicate ChildFails(src: Entry, r: map<Name, Entry>, n: Name)
    requires src.Dir? && n in src.children
    decreases src, 0
  {
    src.children[n].Dir? && n in r && (!r[n].Dir? || Fails(src.children[n], r[n].children))
  }

  predicate Fails(src: Entry, r: map<Name, Entry>)
    requires src.Dir?
    decreases src, 1
  {
    exists n :: n in src.children && ChildFails(src, r, n)
  }

  /** The outcome of a pass over the source directory src and the replica entry rep (None when
      the replica directory does not exist): the new replica directory, or the failure. */
  function SyncResult(src: Option<Entry>, rep: Option<Entry>): Result<Entry> {
    if !(src.Some? && src.value.Dir?) then Err(SourceNotListable)
    else if rep.Some? && !rep.value.Dir? then Err(ReplicaNotListable)
    else if Fails(src.value, ReplicaListing(rep)) then Err(ReplicaNotListable)
    else Ok(Dir(Pass(src.value, ReplicaListing(rep))))
  }

  /** Nothing fails against an empty replica directory. */
  lemma EmptyReplicaNeverFails(src: Entry)
    requires src.Dir?
    ensures !Fails(src, map[])
  {
  }

  lemma PassAt(src: Entry, r: map<Name, Entry>, n: Name)
    requires src.Dir?
    ensures Child(Pass(src, r), n) == ChildAfterPass(src, r, n)
  {
  }

  /** Every source subdirectory is recursed into, whether it was just created or existed:
      what the pass leaves under its name is the outcome of the nested pass. */
  lemma RecursesIntoEverySourceDir(src: Entry, r: map<Name, Entry>, n: Name)
    requires src.Dir? && !Fails(src, r)
    requires n in src.children && src.children[n].Dir?
    ensures n in Pass(src, r)
    ensures SyncResult(Some(src.children[n]), Child(r, n)) == Ok(Pass(src, r)[n])
  {
    assert !ChildFails(src, r, n);
    PassAt(src, r, n);
    EmptyReplicaNeverFails(src.children[n]);
  }

  /** The nested pass over a source subdirectory: its outcome decides whether the enclosing
      level fails and, if not, what stands under that name afterwards. */
  lemma SubdirectoryOutcome(src: Entry, r: map<Name, Entry>, n: Name)
    requires src.Dir? && n in src.children && src.children[n].Dir?
    ensures var res := SyncResult(Some(src.children[n]), Child(r, n));
      (res.Ok? <==> !ChildFails(src, r, n)) &&
      (res.Err? ==> res.error == ReplicaNotListable) &&
      (res.Ok? ==> ChildAfterPass(src, r, n) == Some(res.value)) &&
      (QuietDir(src, r) ==> Quiet(Some(src.children[n]), Child(r, n)))
  {
    EmptyReplicaNeverFails(src.children[n]);
  }

  /** A missing replica directory is created, and the pass proceeds as though it were empty. */
  lemma MissingReplicaIsEmpty(src: Option<Entry>)
    ensures SyncResult(src, None) == SyncResult(src, Some(Dir(map[])))
    ensures src.Some? && src.value.Dir? ==> SyncResult(src, None).Ok?
  {
    if src.Some? && src.value.Dir? {
      EmptyReplicaNeverFails(src.value);
    }
  }

  /** Type mismatch: a source directory over a replica non-directory of the same name makes the
      pass fail (the nested listing of the non-directory fails). */
  lemma DirOverNonDirFails(src: Entry, rep: Option<Entry>, n: Name)
    requires src.Dir? && n in src.children && src.children[n].Dir?
    requires rep.Some? && rep.value.Dir? && n in rep.value.children
    requires !rep.value.children[n].Dir?
    ensures SyncResult(Some(src), rep) == Err(ReplicaNotListable)
  {
    assert ChildFails(src, rep.value.children, n);
  }

  /** A source file is copied only when its name is missing from the replica. A replica entry
      of that name is left as it is, whatever its content and even when it is a directory. */
  lemma FileCopiedOnlyWhenAbsent(src: Entry, rep: Option<Entry>, n: Name)
    requires src.Dir? && n in src.children && src.children[n].File?
    requires SyncResult(Some(src), rep).Ok?
    ensures var out := SyncResult(Some(src), rep).value.children;
      n in out &&
      out[n] == if n in ReplicaListing(rep) then ReplicaListing(rep)[n] else src.children[n]
  {
    PassAt(src, ReplicaListing(rep), n);
  }

  /** Replica-only entries: files, links and directories (with their subtrees) are gone after
      a pass; only entries of another kind survive, unchanged. */
  lemma ReplicaOnlyEntries(src: Entry, rep: Option<Entry>, n: Name)
    requires src.Dir? && n !in src.children
    requires SyncResult(Some(src), rep).Ok?
    ensures var out := SyncResult(Some(src), rep).value.children;
      (n in out <==> n in ReplicaListing(rep) && ReplicaListing(rep)[n].Special?) &&
      (n in out ==> out[n] == ReplicaListing(rep)[n])
  {
    PassAt(src, ReplicaListing(rep), n);
  }

  // ---------------------------------------------------------------------------------------
  // Properties of whole trees

  /** A tree of regular files and directories only. */
  predicate Plain(e: Entry) {
    match e
    case File(_) => true
    case Dir(m) => forall n :: n in m ==> Plain(m[n])
    case _ => false
  }

  predicate NoSpecial(e: Entry) {
    match e
    case Special => false
    case Dir(m) => forall n :: n in m ==> NoSpecial(m[n])
    case _ => true
  }

  /** At every level, every source directory and regular file has an entry of the same name in
      out; the ones under source directories are directories. */
  predicate Covers(src: Entry, out: Entry)
    requires src.Dir?
  {
    out.Dir? &&
    forall n :: n in src.children ==>
      (src.children[n].File? ==> n in out.children) &&
      (src.children[n].Dir? ==> n in out.children && Covers(src.children[n], out.children[n]))
  }

  /** At every level reached through directories present on both sides, out holds no name
      absent from the source except entries of a kind that is none of file, link, directory. */
  predicate NoStrays(src: Entry, out: Entry)
    requires src.Dir?
  {
    out.Dir? &&
    forall n :: n in out.children ==>
      (n !in src.children ==> out.children[n].Special?) &&
      (n in src.children && src.children[n].Dir? && out.children[n].Dir? ==>
         NoStrays(src.children[n], out.children[n]))
  }

  /** Creation completeness at every level. */
  lemma {:induction false} CreationComplete(src: Entry, rep: Option<Entry>)
    requires src.Dir? && SyncResult(Some(src), rep).Ok?
    ensures Covers(src, SyncResult(Some(src), rep).value)
    decreases src
  {
    var r := ReplicaListing(rep);
    var out := SyncResult(Some(src), rep).value;
    forall n | n in src.children
      ensures (src.children[n].File? ==> n in out.children) &&
              (src.children[n].Dir? ==> n in out.children && Covers(src.children[n], out.children[n]))
    {
      PassAt(src, r, n);
      if src.children[n].Dir? {
        RecursesIntoEverySourceDir(src, r, n);
        CreationComplete(src.children[n], Child(r, n));
      }
    }
  }

  /** Deletion completeness at every level. */
  lemma {:induction false} DeletionComplete(src: Entry, rep: Option<Entry>)
    requires src.Dir? && SyncResult(Some(src), rep).Ok?
    ensures NoStrays(src, SyncResult(Some(src), rep).value)
    decreases src
  {
    var r := ReplicaListing(rep);
    var out := SyncResult(Some(src), rep).value;
    forall n | n in out.children
      ensures (n !in src.children ==> out.children[n].Special?) &&
              (n in src.children && src.children[n].Dir? && out.children[n].Dir? ==>
                 NoStrays(src.children[n], out.children[n]))
    {
      PassAt(src, r, n);
      if n in src.children && src.children[n].Dir? {
        RecursesIntoEverySourceDir(src, r, n);
        DeletionComplete(src.children[n], Child(r, n));
      }
    }
  }

  /** Self-healing: a pass over a missing replica rebuilds the whole source tree. */
  lemma {:induction false} MissingReplicaRebuilt(src: Entry)
    requires src.Dir? && Plain(src)
    ensures SyncResult(Some(src), None) == Ok(src)
    decreases src
  {
    var s := src.children;
    EmptyReplicaNeverFails(src);
    forall n ensures Child(Pass(src, map[]), n) == Child(s, n) {
      PassAt(src, map[], n);
      if n in s && s[n].Dir? {
        MissingReplicaRebuilt(s[n]);
      }
    }
    ListingExt(Pass(src, map[]), s);
  }

  // ---------------------------------------------------------------------------------------
  // Idempotence

  /** A pass over src and the replica listing r performs no create, copy or delete: every source
      directory and regular file already has its name in the replica, every replica-only entry is
      of a kind the pass never deletes, and the same holds below every source directory. */
  predicate QuietDir(src: Entry, r: map<Name, Entry>)
    requires src.Dir?
    decreases src
  {
    && (forall n :: n in src.children && (src.children[n].Dir? || src.children[n].File?) ==> n in r)
    && (forall n :: n in r && n !in src.children ==> r[n].Special?)
    && (forall n :: n in src.children && src.children[n].Dir? ==>
          n in r && r[n].Dir? && QuietDir(src.children[n], r[n].children))
  }

  predicate Quiet(src: Option<Entry>, rep: Option<Entry>) {
    src.Some? && src.value.Dir? && rep.Some? && rep.value.Dir? &&
    QuietDir(src.value, rep.value.children)
  }

  /** A pass with nothing to do succeeds and leaves the replica as it is. */
  lemma {:induction false} QuietPassChangesNothing(src: Option<Entry>, rep: Option<Entry>)
    requires Quiet(src, rep)
    ensures SyncResult(src, rep) == Ok(rep.value)
    decreases src.value
  {
    var s, r := src.value.children, rep.value.children;
    forall n | n in s && s[n].Dir?
      ensures !ChildFails(src.value, r, n) && Pass(s[n], r[n].children) == r[n].children
    {
      QuietPassChangesNothing(Some(s[n]), Some(r[n]));
    }
    assert !Fails(src.value, r);
    forall n ensures Child(Pass(src.value, r), n) == Child(r, n) {
      PassAt(src.value, r, n);
    }
    ListingExt(Pass(src.value, r), r);
  }

  /** After a successful pass, a second pass right after it has nothing to do. */
  lemma {:induction false} SecondPassIsQuiet(src: Entry, rep: Option<Entry>)
    requires src.Dir? && SyncResult(Some(src), rep).Ok?
    ensures Quiet(Some(src), Some(SyncResult(Some(src), rep).value))
    decreases src
  {
    var s, r := src.children, ReplicaListing(rep);
    var out := Pass(src, r);
    forall n | n in s && s[n].Dir?
      ensures n in out && out[n].Dir? && QuietDir(s[n], out[n].children)
    {
      RecursesIntoEverySourceDir(src, r, n);
      SecondPassIsQuiet(s[n], Child(r, n));
    }
    forall n | n in s && (s[n].Dir? || s[n].File?) ensures n in out {
      PassAt(src, r, n);
    }
    forall n | n in out && n !in s ensures out[n].Special? {
      PassAt(src, r, n);
    }
  }

  /** Idempotence: a second pass right after a successful one succeeds and changes nothing. */
  lemma Idempotent(src: Entry, rep: Option<Entry>)
    requires src.Dir? && SyncResult(Some(src), rep).Ok?
    ensures var out := SyncResult(Some(src), rep).value;
      SyncResult(Some(src), Some(out)) == Ok(out)
  {
    var out := SyncResult(Some(src), rep).value;
    SecondPassIsQuiet(src, rep);
    QuietPassChangesNothing(Some(src), Some(out));
  }

  /** At every level the comparison finds nothing to copy and nothing to delete. */
  predicate NoDiffs(src: Entry, out: Entry)
    requires src.Dir?
  {
    out.Dir? &&
    Diff(src.children.Keys, out.children.Keys) == DiffResult({}, {}) &&
    forall n :: n in src.children && src.children[n].Dir? ==>
      n in out.children && NoDiffs(src.children[n], out.children[n])
  }

  /** For a source of plain files and directories and a replica without special entries, the
      second pass computes empty copy and delete sets at every level. */
  lemma {:induction false} SecondPassDiffsEmpty(src: Entry, rep: Option<Entry>)
    requires src.Dir? && Plain(src)
    requires rep.Some? ==> NoSpecial(rep.value)
    requires SyncResult(Some(src), rep).Ok?
    ensures NoDiffs(src, SyncResult(Some(src), rep).value)
    decreases src
  {
    var s, r := src.children, ReplicaListing(rep);
    var out := Pass(src, r);
    forall n ensures n in s <==> n in out {
      PassAt(src, r, n);
      if n in r {
        assert rep.Some? && rep.value.Dir? && n in rep.value.children;
        assert NoSpecial(r[n]);
      }
    }
    DiffEmptyIffSameNames(s.Keys, out.Keys);
    forall n | n in s && s[n].Dir? ensures n in out && NoDiffs(s[n], out[n]) {
      RecursesIntoEverySourceDir(src, r, n);
      if n in r {
        assert NoSpecial(r[n]);
      }
      SecondPassDiffsEmpty(s[n], Child(r, n));
    }
  }

  // ---------------------------------------------------------------------------------------
  // A worked example

  /** Source {a.txt: "hi", sub/b.txt: "yo"} over replica {c.txt: "old", sub/}: c.txt is deleted,
      a.txt and sub/b.txt are copied, sub/ is kept, and the replica ends equal to the source. */
  lemma WorkedExample()
    ensures var source := Dir(map["a.txt" := File([0x68, 0x69]),
                                  "sub" := Dir(map["b.txt" := File([0x79, 0x6f])])]);
            var replica := Dir(map["c.txt" := File([0x6f, 0x6c, 0x64]), "sub" := Dir(map[])]);
            SyncResult(Some(source), Some(replica)) == Ok(source)
  {
    var sub := Dir(map["b.txt" := File([0x79, 0x6f])]);
    var source := Dir(map["a.txt" := File([0x68, 0x69]), "sub" := sub]);
    var replica := Dir(map["c.txt" := File([0x6f, 0x6c, 0x64]), "sub" := Dir(map[])]);
    EmptyReplicaNeverFails(sub);
    forall n ensures Child(Pass(sub, map[]), n) == Child(sub.children, n) {
      PassAt(sub, map[], n);
    }
    ListingExt(Pass(sub, map[]), sub.children);
    assert !ChildFails(source, replica.children, "sub");
    assert !Fails(source, replica.children);
    forall n ensures Child(Pass(source, replica.children), n) == Child(source.children, n) {
      PassAt(source, replica.children, n);
    }
    ListingExt(Pass(source, replica.children), source.children);
  }
}
