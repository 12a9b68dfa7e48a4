/**
 * The bundle store: a directory tree under a root, read and written through
 * the codec's layout, listed by walking it, and filled on demand from a
 * remote registry.
 */
module Store {
  import opened Errors
  import opened Strings
  import opened References
  import opened Codec

  /** The bundle document; its JSON schema lies outside the store. */
  datatype Bundle = Bundle(name: string, version: string)

  /**
   * A regular file under the store root: a bundle document that decodes,
   * content that json.Unmarshal rejects, or a file the process cannot read.
   */
  datatype File = Json(bundle: Bundle) | Garbage | Forbidden

  /** `a` sorts no later than `b`: Go's `<` on their names does not put `b` first. */
  predicate NameLeq(a: Reference, b: Reference)
  {
    !LexLess(b.name, a.name)
  }

  predicate SortedByName(s: seq<Reference>)
  {
    forall i, j :: 0 <= i < j < |s| ==> NameLeq(s[i], s[j])
  }

  predicate Distinct(s: seq<string>)
  {
    forall i, j :: 0 <= i < j < |s| ==> s[i] != s[j]
  }

  class BundleStore {
    /** The store root, `b.path`. */
    const root: string
    /** Paths where creating the directories or writing the file fails (permissions, a full disk). */
    const denied: set<string>
    /** The regular files below the root, by full path. */
    var files: map<string, File>
    /** Every reference handed to the remote pull, in order. */
    ghost var pulls: seq<Reference>

    /**
     * The files form a directory tree under the root: every file lies below
     * the root and no file sits where another one needs a directory.
     */
    ghost predicate Valid()
      reads this
    {
      && (forall p :: p in files ==> HasPrefix(p, root + "/"))
      && (forall p, q :: p in files && q in files ==> !HasPrefix(q, p + "/"))
    }

    constructor (root: string, files: map<string, File>, denied: set<string>)
      requires forall p :: p in files ==> HasPrefix(p, root + "/")
      requires forall p, q :: p in files && q in files ==> !HasPrefix(q, p + "/")
      ensures Valid()
      ensures this.root == root && this.files == files && this.denied == denied && pulls == []
    {
      this.root := root;
      this.files := files;
      this.denied := denied;
      pulls := [];
    }

    /**
     * `path` cannot hold a regular file: a file is in the way of one of its
     * directories, or `path` is itself a directory.
     */
    predicate Blocked(path: string)
      reads this
    {
      exists p :: p in files && (HasPrefix(path, p + "/") || HasPrefix(p, path + "/"))
    }

    /** The paths `List` decodes: regular files whose name ends with ".json". */
    function JsonFiles(): set<string>
      reads this
    {
      set p | p in files && HasSuffix(p, Extension)
    }

    /**
     * Read: the bundle filed at the reference's store path. A reference
     * with neither tag nor digest, a missing file, an unreadable file and
     * undecodable content are errors, each wrapped with the reference.
     */
    function Read(ref: Reference): (r: Result<Bundle>)
      reads this
      ensures ref.Bare? ==> r == Err(Wrapped(ReadOp, String(ref), NotTaggedOrDigested(String(ref))))
      ensures r.Ok? <==> !ref.Bare? && StorePath(root, ref).value in files && files[StorePath(root, ref).value].Json?
      ensures r.Ok? ==> r.value == files[StorePath(root, ref).value].bundle
      ensures r.Err? ==> r.error.Wrapped? && r.error.op == ReadOp && r.error.ref == String(ref)
      ensures r.Err? && IsNotExist(r.error) <==>
        !ref.Bare? && StorePath(root, ref).value !in files && !Blocked(StorePath(root, ref).value)
    {
      var wrap := (e: Error) => Err(Wrapped(ReadOp, String(ref), e));
      match StorePath(root, ref)
      case Err(e) => wrap(e)
      case Ok(path) =>
        if path in files then
          match files[path]
          case Json(b) => Ok(b)
          case Garbage => wrap(Undecodable(path))
          case Forbidden => wrap(Unreadable(path))
        else if Blocked(path) then wrap(Unreadable(path))
        else wrap(NotExist(path))
    }

    /** Store succeeds: the reference has a store path and the file can be written there. */
    predicate CanStore(ref: Reference)
      reads this
    {
      !ref.Bare? && StorePath(root, ref).value !in denied && !Blocked(StorePath(root, ref).value)
    }

    /**
     * Store: writes the bundle at the reference's store path, creating
     * directories as needed; on failure nothing changes and the error is
     * wrapped with the reference.
     */
    method Store(ref: Reference, b: Bundle) returns (err: Option<Error>)
      requires Valid()
      modifies this
      ensures Valid()
      ensures pulls == old(pulls)
      ensures err.None? <==> old(CanStore(ref))
      ensures err.None? ==> files == old(files)[StorePath(root, ref).value := Json(b)]
      ensures err.None? ==> Read(ref) == Ok(b)
      ensures err.Some? ==> files == old(files)
      ensures err.Some? && ref.Bare? ==> err.value == Wrapped(StoreOp, String(ref), NotTaggedOrDigested(String(ref)))
      ensures err.Some? && !ref.Bare? ==> err.value == Wrapped(StoreOp, String(ref), WriteFailed(StorePath(root, ref).value))
    {
      var sp := StorePath(root, ref);
      if sp.Err? {
        return Some(Wrapped(StoreOp, String(ref), sp.error));
      }
      var path := sp.value;
      if path in denied || Blocked(path) {
        return Some(Wrapped(StoreOp, String(ref), WriteFailed(path)));
      }
      files := files[path := Json(b)];
      return None;
    }

    /** A local read that ends LookupOrPullBundle without pulling: a hit, or a failure other than "not there". */
    static predicate LocalReadSettles(cached: Result<Bundle>, pullRef: bool)
    {
      !pullRef && (cached.Ok? || !IsNotExist(cached.error))
    }

    /**
     * LookupOrPullBundle: unless `pullRef` forces a pull, a local hit is
     * returned and a local error other than a missing file is surfaced. Otherwise the
     * reference, given the tag `latest` when it has neither tag nor digest,
     * is pulled; a pull error is wrapped with the reference, and a pulled
     * bundle is stored under the reference as given before being returned.
     */
    method LookupOrPullBundle(ref: Reference, pullRef: bool, pull: Reference -> Result<Bundle>)
      returns (r: Result<Bundle>)
      requires Valid()
      modifies this
      ensures Valid()
      ensures LocalReadSettles(old(Read(ref)), pullRef) ==>
        r == old(Read(ref)) && files == old(files) && pulls == old(pulls)
      ensures !LocalReadSettles(old(Read(ref)), pullRef) ==>
        pulls == old(pulls) + [TagNameOnly(ref)]
      ensures !LocalReadSettles(old(Read(ref)), pullRef) && pull(TagNameOnly(ref)).Err? ==>
        r == Err(Wrapped(PullOp, String(ref), pull(TagNameOnly(ref)).error)) && files == old(files)
      ensures !LocalReadSettles(old(Read(ref)), pullRef) && pull(TagNameOnly(ref)).Ok? ==>
        && (r.Ok? <==> old(CanStore(ref)))
        && (r.Ok? ==> r == pull(TagNameOnly(ref)) && files == old(files)[StorePath(root, ref).value := Json(r.value)])
        && (r.Err? ==> files == old(files))
        && (r.Err? && ref.Bare? ==> r.error == Wrapped(StoreOp, String(ref), NotTaggedOrDigested(String(ref))))
        && (r.Err? && !ref.Bare? ==> r.error == Wrapped(StoreOp, String(ref), WriteFailed(StorePath(root, ref).value)))
      ensures r.Ok? ==> Read(ref) == r
      ensures ref.Bare? ==> r.Err?
    {
      if !pullRef {
        var cached := Read(ref);
        if cached.Ok? || !IsNotExist(cached.error) {
          return cached;
        }
      }
      var pulled := pull(TagNameOnly(ref));
      pulls := pulls + [TagNameOnly(ref)];
      if pulled.Err? {
        return Err(Wrapped(PullOp, String(ref), pulled.error));
      }
      var err := Store(ref, pulled.value);
      if err.Some? {
        return Err(err.value);
      }
      return pulled;
    }

    /**
     * The walk of List: visits the regular files, skips those whose name
     * does not end with ".json", decodes each other path into a reference
     * and stops at the first that fails. `visited` is the walk order.
     */
    method Walk() returns (err: Option<Error>, references: seq<Reference>, ghost visited: seq<string>)
      ensures Distinct(visited)
      ensures forall i :: 0 <= i < |visited| ==> visited[i] in JsonFiles()
      ensures err.None? ==> forall p :: p in JsonFiles() ==> p in visited
      ensures |references| == |visited| - (if err.Some? then 1 else 0)
      ensures forall i :: 0 <= i < |references| ==> PathToReference(root, visited[i]) == Ok(references[i])
      ensures err.Some? ==> PathToReference(root, visited[|visited| - 1]) == Err(err.value)
      ensures err.None? <==> forall p :: p in JsonFiles() ==> PathToReference(root, p).Ok?
    {
      ghost var json := JsonFiles();
      var pending := JsonFiles();
      references, visited := [], [];
      while pending != {}
        invariant Walking(root, json, pending, visited, references)
        decreases |pending|
      {
        var path :| path in pending;
        var ref := PathToReference(root, path);
        WalkStep(root, json, pending, visited, references, path);
        visited := visited + [path];
        pending := pending - {path};
        if ref.Err? {
          return Some(ref.error), references, visited;
        }
        references := references + [ref.value];
      }
      WalkDone(root, json, visited, references);
      return None, references, visited;
    }

    /**
     * List: the references of every ".json" file below the root, sorted by
     * name, or the first decoding error the walk meets. `visited` is the
     * walk order and `walked` the references in that order.
     */
    method List() returns (r: Result<seq<Reference>>, ghost visited: seq<string>, ghost walked: seq<Reference>)
      ensures Distinct(visited)
      ensures forall i :: 0 <= i < |visited| ==> visited[i] in JsonFiles()
      ensures r.Ok? ==> forall p :: p in JsonFiles() ==> p in visited
      ensures |walked| == |visited| - (if r.Err? then 1 else 0)
      ensures forall i :: 0 <= i < |walked| ==> PathToReference(root, visited[i]) == Ok(walked[i])
      ensures r.Err? ==> PathToReference(root, visited[|visited| - 1]) == Err(r.error)
      ensures r.Ok? ==> multiset(r.value) == multiset(walked) && SortedByName(r.value)
      ensures r.Ok? <==> forall p :: p in JsonFiles() ==> PathToReference(root, p).Ok?
    {
      var err, references;
      err, references, visited := Walk();
      walked := references;
      if err.Some? {
        return Err(err.value), visited, walked;
      }
      var a := new Reference[|references|](i requires 0 <= i < |references| => references[i]);
      assert a[..] == references;
      SortByName(a);
      r := Ok(a[..]);
    }
  }

  /**
   * Every bundle `Read` finds under a storable reference sits in a file the
   * walk of `List` decodes, and that file decodes back to the reference.
   */
  lemma ReadableIsListed(s: BundleStore, ref: Reference)
    requires Storable(ref) && (ref.Tagged? || ref.Digested?)
    requires s.Read(ref).Ok?
    ensures StorePath(s.root, ref).value in s.JsonFiles()
    ensures PathToReference(s.root, StorePath(s.root, ref).value) == Ok(ref)
  {
    PathRoundTrip(s.root, ref);
  }

  /**
   * The pull-through cache: once a bundle is stored under a reference, a
   * lookup that does not force a pull returns it without calling the pull.
   */
  method CacheHitAfterStore(s: BundleStore, ref: Reference, b: Bundle, pull: Reference -> Result<Bundle>)
    returns (r: Result<Bundle>)
    requires s.Valid() && s.CanStore(ref)
    modifies s
    ensures r == Ok(b) && s.pulls == old(s.pulls)
  {
    var err := s.Store(ref, b);
    r := s.LookupOrPullBundle(ref, false, pull);
  }

  // ---------------------------------------------------------------------------
  // The walk

  /**
   * Part way through the walk over the ".json" files `json`: `pending` are
   * still to come, `visited` came in order, each once, and decoded to
   * `refs`.
   */
  ghost predicate Walking(root: string, json: set<string>, pending: set<string>, visited: seq<string>, refs: seq<Reference>)
  {
    && pending <= json
    && (forall p :: p in json ==> p in pending || p in visited)
    && (forall i :: 0 <= i < |visited| ==> visited[i] in json && visited[i] !in pending)
    && Distinct(visited)
    && |refs| == |visited|
    && (forall i :: 0 <= i < |refs| ==> PathToReference(root, visited[i]) == Ok(refs[i]))
  }

  /** Visiting one more pending path: a success keeps the walk going, a failure ends it with a valid trace. */
  lemma WalkStep(root: string, json: set<string>, pending: set<string>, visited: seq<string>, refs: seq<Reference>, path: string)
    requires Walking(root, json, pending, visited, refs) && path in pending
    ensures var v := visited + [path];
      && Distinct(v)
      && (forall i :: 0 <= i < |v| ==> v[i] in json)
      && (forall i :: 0 <= i < |refs| ==> PathToReference(root, v[i]) == Ok(refs[i]))
      && v[|v| - 1] == path
    ensures PathToReference(root, path).Ok? ==>
      Walking(root, json, pending - {path}, visited + [path], refs + [PathToReference(root, path).value])
  {
  }

  /** A finished walk visited every ".json" file, and each decoded. */
  lemma WalkDone(root: string, json: set<string>, visited: seq<string>, refs: seq<Reference>)
    requires Walking(root, json, {}, visited, refs)
    ensures forall p :: p in json ==> p in visited && PathToReference(root, p).Ok?
  {
    forall p | p in json
      ensures PathToReference(root, p).Ok?
    {
      var i :| 0 <= i < |visited| && visited[i] == p;
    }
  }

  // ---------------------------------------------------------------------------
  // sort.Slice by name

  /**
   * The state of insertion into `s[..i + 1]` while the element being
   * inserted sits at `j`: the other elements are in order, the inserted one
   * is strictly smaller than every element after it, and its two
   * neighbours are in order with each other.
   */
  ghost predicate Inserting(s: seq<Reference>, i: int, j: int)
  {
    && 0 <= j <= i < |s|
    && (forall p, q :: 0 <= p < q <= i && p != j && q != j ==> NameLeq(s[p], s[q]))
    && (forall q :: j < q <= i ==> LexLess(s[j].name, s[q].name))
    && (0 < j < i ==> NameLeq(s[j - 1], s[j + 1]))
  }

  lemma InsertingStart(s: seq<Reference>, i: int)
    requires 0 <= i < |s| && SortedByName(s[..i])
    ensures Inserting(s, i, i)
  {
    forall p, q | 0 <= p < q < i
      ensures NameLeq(s[p], s[q])
    {
      assert s[..i][p] == s[p] && s[..i][q] == s[q];
    }
  }

  /** Swapping the inserted element with a larger left neighbour moves the insertion one place left. */
  lemma InsertingSwap(s: seq<Reference>, i: int, j: int)
    requires Inserting(s, i, j) && j > 0 && LexLess(s[j].name, s[j - 1].name)
    ensures Inserting(s[j - 1 := s[j]][j := s[j - 1]], i, j - 1)
  {
  }

  /** Once the inserted element's left neighbour is not larger, the first `i + 1` elements are sorted. */
  lemma InsertingDone(s: seq<Reference>, i: int, j: int)
    requires Inserting(s, i, j) && (j == 0 || NameLeq(s[j - 1], s[j]))
    ensures SortedByName(s[..i + 1])
  {
    var t := s[..i + 1];
    forall p, q | 0 <= p < q < |t|
      ensures NameLeq(t[p], t[q])
    {
      if q == j {
        if p < j - 1 {
          LexLeqTransitive(s[p].name, s[j - 1].name, s[j].name);
        }
      } else if p == j {
        LexLessAsymmetric(s[j].name, s[q].name);
      }
    }
  }

  /** Swapping two elements keeps the multiset. */
  lemma SwapPermutes<T>(s: seq<T>, j: int)
    requires 0 < j < |s|
    ensures multiset(s[j - 1 := s[j]][j := s[j - 1]]) == multiset(s)
  {
    var u := s[j - 1 := s[j]];
    assert multiset(u) == multiset(s) - multiset{s[j - 1]} + multiset{s[j]};
    assert u[j] == s[j];
    assert multiset(u[j := s[j - 1]]) == multiset(u) - multiset{s[j]} + multiset{s[j - 1]};
  }

  /** Sorts the references in place by name (sort.Slice with `a[i].Name() < a[j].Name()`). */
  method SortByName(a: array<Reference>)
    modifies a
    ensures SortedByName(a[..])
    ensures multiset(a[..]) == multiset(old(a[..]))
  {
    for i := 0 to a.Length
      invariant SortedByName(a[..i])
      invariant multiset(a[..]) == multiset(old(a[..]))
    {
      InsertAt(a, i);
    }
    assert a[..a.Length] == a[..];
  }

  /** Moves `a[i]` left past every larger name, so that the first `i + 1` elements are sorted. */
  method InsertAt(a: array<Reference>, i: int)
    requires 0 <= i < a.Length && SortedByName(a[..i])
    modifies a
    ensures SortedByName(a[..i + 1])
    ensures multiset(a[..]) == multiset(old(a[..]))
  {
    InsertingStart(a[..], i);
    var j := i;
    while j > 0 && LexLess(a[j].name, a[j - 1].name)
      invariant Inserting(a[..], i, j)
      invariant multiset(a[..]) == multiset(old(a[..]))
      decreases j
    {
      ghost var s := a[..];
      InsertingSwap(s, i, j);
      SwapPermutes(s, j);
      a[j - 1], a[j] := a[j], a[j - 1];
      assert a[..] == s[j - 1 := s[j]][j := s[j - 1]];
      j := j - 1;
    }
    InsertingDone(a[..], i, j);
  }
}
