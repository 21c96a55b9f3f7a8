/** An in-memory model of a directory tree, addressed by paths of entry names.
    os.listdir, os.path.exists, os.makedirs, shutil.copy2, os.remove and shutil.rmtree
    are modelled on top of Get and Put (see SyncEngine). */
module FileTree {

  type Name = string

  /** A path relative to the replica root: the sequence of entry names leading to an entry. */
  type Path = seq<Name>

  /** One filesystem entry. Link is a symbolic link, kept opaque (never followed);
      Special is anything that is neither a regular file, a directory nor a link
      (a FIFO, a socket, a device node). */
  datatype Entry =
    | File(data: seq<bv8>)
    | Dir(children: map<Name, Entry>)
    | Link(target: string)
    | Special

  datatype Option<T> = None | Some(value: T)

  /** The entry called n inside a directory listing, if any. */
  function Child(m: map<Name, Entry>, n: Name): (r: Option<Entry>)
    ensures r.Some? <==> n in m
    ensures r.Some? ==> r.value == m[n]
  {
    if n in m then Some(m[n]) else None
  }

  /** A listing with the entry n set to e, or removed when e is None. */
  function Update(m: map<Name, Entry>, n: Name, e: Option<Entry>): (r: map<Name, Entry>)
    ensures Child(r, n) == e
    ensures forall k :: k != n ==> Child(r, k) == Child(m, k)
  {
    if e.Some? then m[n := e.value] else m - {n}
  }

  /** The entry reached from t along p; None when some step is missing or is not a directory. */
  function Get(t: Option<Entry>, p: Path): Option<Entry>
    decreases |p|
  {
    if p == [] then t
    else match t
      case Some(Dir(m)) => Get(Child(m, p[0]), p[1..])
      case _ => None
  }

  /** t with the entry at p replaced by e (removed when e is None). A path that does not lead
      through directories leaves t as it is. */
  function Put(t: Option<Entry>, p: Path, e: Option<Entry>): Option<Entry>
    decreases |p|
  {
    if p == [] then e
    else match t
      case Some(Dir(m)) => Some(Dir(Update(m, p[0], Put(Child(m, p[0]), p[1..], e))))
      case _ => t
  }

  predicate IsDirAt(t: Option<Entry>, p: Path) {
    Get(t, p).Some? && Get(t, p).value.Dir?
  }

  /** p is the root, or its parent is an existing directory: an entry can be created at p. */
  predicate Reachable(t: Option<Entry>, p: Path) {
    p == [] || IsDirAt(t, p[..|p| - 1])
  }

  /** Map equality from equality of every lookup. */
  lemma ListingExt(a: map<Name, Entry>, b: map<Name, Entry>)
    requires forall n :: Child(a, n) == Child(b, n)
    ensures a == b
  {
    assert a.Keys == b.Keys by {
      forall n ensures n in a <==> n in b {
        assert Child(a, n).Some? == Child(b, n).Some?;
      }
    }
    forall n | n in a ensures a[n] == b[n] {
      assert Child(a, n) == Child(b, n);
    }
  }

  /** One more step along a path looks the name up in the directory reached so far. */
  lemma {:induction false} GetAppend(t: Option<Entry>, p: Path, n: Name)
    ensures Get(t, p + [n]) == match Get(t, p) case Some(Dir(m)) => Child(m, n) case _ => None
    decreases |p|
  {
    if p == [] {
      assert p + [n] == [n];
      assert [n][1..] == [];
    } else {
      assert (p + [n])[0] == p[0];
      assert (p + [n])[1..] == p[1..] + [n];
      match t
      case Some(Dir(m)) => GetAppend(Child(m, p[0]), p[1..], n);
      case _ =>
    }
  }

  /** A non-root entry is found exactly when its parent is a directory that lists its name. */
  lemma ExistsInParent(t: Option<Entry>, p: Path)
    ensures p != [] ==> (Get(t, p).Some? <==>
      (IsDirAt(t, p[..|p| - 1]) && p[|p| - 1] in Get(t, p[..|p| - 1]).value.children))
  {
    if p != [] {
      assert p == p[..|p| - 1] + [p[|p| - 1]];
      GetAppend(t, p[..|p| - 1], p[|p| - 1]);
    }
  }

  /** A Put at p changes no entry whose path is neither inside the subtree at p nor on the way
      down to it: this is the "nothing else changes" of every create, copy and delete. */
  lemma {:induction false} PutFrame(t: Option<Entry>, p: Path, q: Path, e: Option<Entry>)
    requires !(p <= q) && !(q <= p)
    ensures Get(Put(t, p, e), q) == Get(t, q)
    decreases |p|
  {
    match t
    case Some(Dir(m)) =>
      if p[0] == q[0] {
        assert p == [p[0]] + p[1..] && q == [q[0]] + q[1..];
        PutFrame(Child(m, p[0]), p[1..], q[1..], e);
      }
    case _ =>
  }

  /** What was put at a reachable path is found there. */
  lemma {:induction false} GetPut(t: Option<Entry>, p: Path, e: Option<Entry>)
    requires Reachable(t, p)
    ensures Get(Put(t, p, e), p) == e
    decreases |p|
  {
    if p != [] {
      if |p| == 1 {
        assert p[..0] == [];
        assert p[1..] == [];
      } else {
        assert p[..|p| - 1][1..] == p[1..][..|p[1..]| - 1];
        assert p[..|p| - 1][0] == p[0];
        GetPut(Child(t.value.children, p[0]), p[1..], e);
      }
    }
  }

  /** Putting back what is already there changes nothing. */
  lemma {:induction false} PutSame(t: Option<Entry>, p: Path)
    requires Get(t, p).Some?
    ensures Put(t, p, Get(t, p)) == t
    decreases |p|
  {
    if p != [] {
      var m := t.value.children;
      PutSame(Child(m, p[0]), p[1..]);
      ListingExt(Update(m, p[0], Child(m, p[0])), m);
    }
  }

  /** A second Put at the same path overrides the first. */
  lemma {:induction false} PutPut(t: Option<Entry>, p: Path, e1: Option<Entry>, e2: Option<Entry>)
    ensures Put(Put(t, p, e1), p, e2) == Put(t, p, e2)
    decreases |p|
  {
    if p != [] {
      match t
      case Some(Dir(m)) =>
        var x1 := Put(Child(m, p[0]), p[1..], e1);
        PutPut(Child(m, p[0]), p[1..], e1, e2);
        ListingExt(Update(Update(m, p[0], x1), p[0], Put(x1, p[1..], e2)),
                   Update(m, p[0], Put(Child(m, p[0]), p[1..], e2)));
      case _ =>
    }
  }

  /** Changing the entry n of the directory at p is changing that directory at p. */
  lemma {:induction false} PutAppend(t: Option<Entry>, p: Path, n: Name, e: Option<Entry>)
    requires IsDirAt(t, p)
    ensures Put(t, p + [n], e) == Put(t, p, Some(Dir(Update(Get(t, p).value.children, n, e))))
    decreases |p|
  {
    if p == [] {
      assert p + [n] == [n];
      assert [n][1..] == [];
    } else {
      assert (p + [n])[0] == p[0];
      assert (p + [n])[1..] == p[1..] + [n];
      PutAppend(Child(t.value.children, p[0]), p[1..], n, e);
    }
  }

  /** Changing the entry n of a directory that was just written at a reachable path p: the
      bookkeeping a pass needs after each create, copy or delete inside p. */
  lemma PutChild(t: Option<Entry>, p: Path, m: map<Name, Entry>, n: Name, e: Option<Entry>)
    requires Reachable(t, p)
    ensures Reachable(Put(t, p, Some(Dir(m))), p + [n])
    ensures Get(Put(t, p, Some(Dir(m))), p + [n]) == Child(m, n)
    ensures Put(Put(t, p, Some(Dir(m))), p + [n], e) == Put(t, p, Some(Dir(Update(m, n, e))))
    ensures Get(Put(t, p, Some(Dir(Update(m, n, e)))), p) == Some(Dir(Update(m, n, e)))
  {
    var t1 := Put(t, p, Some(Dir(m)));
    GetPut(t, p, Some(Dir(m)));
    GetAppend(t1, p, n);
    assert (p + [n])[..|p + [n]| - 1] == p;
    PutAppend(t1, p, n, e);
    PutPut(t, p, Some(Dir(m)), Some(Dir(Update(m, n, e))));
    GetPut(t, p, Some(Dir(Update(m, n, e))));
  }
}
