/**
 * The bundle store's layout: where a reference's bundle lives under the
 * store root, and how a path found under the root is read back as a
 * reference.
 *
 *   <root>/<name, first ':' as '_'>/_tags/<tag>.json
 *   <root>/<name, first ':' as '_'>/_digests/<algorithm>/<hex>.json
 */
module Codec {
  import opened Errors
  import opened Strings
  import opened References

  const TagsDir := "_tags"
  const DigestsDir := "_digests"
  const Extension := ".json"

  predicate IsMarker(s: string)
  {
    s == TagsDir || s == DigestsDir
  }

  /**
   * storePath. The digest branch is tried before the tag branch, so a
   * reference carrying both is filed under its digest; a reference with
   * neither has no place in the store.
   */
  function StorePath(root: string, r: Reference): (p: Result<string>)
    ensures p.Err? <==> r.Bare?
    ensures p.Err? ==> p.error == NotTaggedOrDigested(String(r))
    ensures p.Ok? ==> HasPrefix(p.value, root + "/") && HasSuffix(p.value, Extension)
  {
    var name := ReplaceFirst(r.name, ':', '_');
    if r.IsDigested() then Ok(InStore(root, name + "/" + DigestsDir + "/" + r.alg + "/" + r.hex))
    else if r.IsTagged() then Ok(InStore(root, name + "/" + TagsDir + "/" + r.tag))
    else Err(NotTaggedOrDigested(String(r)))
  }

  /** filepath.Join(root, rel) + ".json", with '/' as the separator. */
  function InStore(root: string, rel: string): (p: string)
    ensures HasPrefix(p, root + "/") && HasSuffix(p, Extension)
    ensures TrimPrefix(p, root + "/") == rel + Extension
  {
    var p := (root + "/") + (rel + Extension);
    assert p == root + "/" + rel + Extension;
    assert p[..|root + "/"|] == root + "/";
    assert p[|p| - |Extension|..] == Extension;
    p
  }

  /** The '/'-separated segments of a path once the store root is stripped from its front. */
  function RelativeSegments(root: string, path: string): (segs: seq<string>)
    ensures |segs| >= 1
    ensures forall i :: 0 <= i < |segs| ==> '/' !in segs[i]
    ensures Join(segs, '/') == TrimPrefix(path, root + "/")
  {
    Split(TrimPrefix(path, root + "/"), '/')
  }

  /** Segments with one ".json" taken off the end of the last. */
  function StripExtension(paths: seq<string>): (segs: seq<string>)
    requires |paths| >= 1
    ensures |segs| == |paths|
    ensures segs[..|segs| - 1] == paths[..|paths| - 1]
    ensures HasSuffix(paths[|paths| - 1], Extension) ==> segs[|segs| - 1] + Extension == paths[|paths| - 1]
    ensures !HasSuffix(paths[|paths| - 1], Extension) ==> segs[|segs| - 1] == paths[|paths| - 1]
  {
    paths[..|paths| - 1] + [TrimSuffix(paths[|paths| - 1], Extension)]
  }

  /**
   * pathToReference: a path with fewer than three relative segments, or
   * whose last segment does not contain ".json" anywhere, is rejected;
   * otherwise the name is rebuilt from the segments and parsed.
   */
  function PathToReference(root: string, path: string): (r: Result<Reference>)
    ensures |RelativeSegments(root, path)| < 3 ==> r == Err(InvalidPath(path))
    ensures var paths := RelativeSegments(root, path);
      |paths| >= 3 && !Contains(paths[|paths| - 1], Extension) ==> r == Err(NotJson(path))
  {
    var paths := RelativeSegments(root, path);
    if |paths| < 3 then Err(InvalidPath(path))
    else if !Contains(paths[|paths| - 1], Extension) then Err(NotJson(path))
    else
      match Reconstruct(path, StripExtension(paths))
      case Err(e) => Err(e)
      case Ok(name) => ParseNamed(name)
  }

  /**
   * reconstructNamedReference: the first segment, with its first '_' turned
   * back into ':', starts the name; the remaining segments are scanned.
   */
  function Reconstruct(path: string, paths: seq<string>): (r: Result<string>)
    requires |paths| >= 1
    ensures r.Err? ==> r.error == InvalidPath(path)
    ensures (forall i :: 1 <= i < |paths| ==> !IsMarker(paths[i])) ==> r.Ok?
  {
    ScanMarkers(path, ReplaceFirst(paths[0], '_', ':'), paths[1..])
  }

  /**
   * The scan of reconstructNamedReference: ordinary segments are appended to
   * the name; `_tags` must be second to last and `_digests` third to last.
   */
  function ScanMarkers(path: string, name: string, rest: seq<string>): (r: Result<string>)
    ensures r.Err? ==> r.error == InvalidPath(path)
    ensures (forall i :: 0 <= i < |rest| ==> !IsMarker(rest[i])) ==> r.Ok?
    decreases |rest|
  {
    if rest == [] then Ok(name)
    else if rest[0] == TagsDir then
      if |rest| == 2 then Ok(name + ":" + rest[1]) else Err(InvalidPath(path))
    else if rest[0] == DigestsDir then
      if |rest| == 3 then Ok(name + "@" + rest[1] + ":" + rest[2]) else Err(InvalidPath(path))
    else ScanMarkers(path, name + "/" + rest[0], rest[1..])
  }

  /** reconstructNamedReference as the source writes it: a loop that grows `name`. */
  method ReconstructNamedReference(path: string, paths: seq<string>) returns (r: Result<string>)
    requires |paths| >= 1
    ensures r == Reconstruct(path, paths)
  {
    var name := ReplaceFirst(paths[0], '_', ':');
    var rest := paths[1..];
    for i := 0 to |rest|
      invariant ScanMarkers(path, name, rest[i..]) == Reconstruct(path, paths)
    {
      var p := rest[i];
      assert rest[i..][1..] == rest[i + 1..];
      if p == TagsDir {
        if i != |rest| - 2 {
          return Err(InvalidPath(path));
        }
        return Ok(name + ":" + rest[i + 1]);
      } else if p == DigestsDir {
        if i != |rest| - 3 {
          return Err(InvalidPath(path));
        }
        return Ok(name + "@" + rest[i + 1] + ":" + rest[i + 2]);
      } else {
        name := name + "/" + p;
      }
    }
    return Ok(name);
  }

  /** Index of the first `_tags` or `_digests` segment, or the length when there is none. */
  function FirstMarker(segs: seq<string>): (k: nat)
    ensures k <= |segs|
    ensures k < |segs| ==> IsMarker(segs[k])
    ensures forall j :: 0 <= j < k ==> !IsMarker(segs[j])
  {
    if segs == [] then 0
    else if IsMarker(segs[0]) then 0
    else 1 + FirstMarker(segs[1..])
  }

  // ---------------------------------------------------------------------------
  // What the scan computes

  /** Segments before the first marker are simply joined onto the name with '/'. */
  lemma {:induction false} ScanPastName(path: string, name: string, comps: seq<string>, tail: seq<string>)
    requires forall i :: 0 <= i < |comps| ==> !IsMarker(comps[i])
    ensures ScanMarkers(path, name, comps + tail) == ScanMarkers(path, Join([name] + comps, '/'), tail)
    decreases |comps|
  {
    if comps == [] {
      assert [name] + comps == [name];
      assert comps + tail == tail;
    } else {
      assert (comps + tail)[1..] == comps[1..] + tail;
      ScanPastName(path, name + "/" + comps[0], comps[1..], tail);
      JoinFuse(name, comps[0], comps[1..], '/');
      assert [name] + comps == [name, comps[0]] + comps[1..];
    }
  }

  /**
   * The reconstruction decided by the position of the first marker: no
   * marker joins every segment; `_tags` must be second to last (giving
   * `name:tag`) and `_digests` third to last (giving `name@alg:hex`); a
   * marker anywhere else is an invalid path.
   */
  lemma ReconstructByPosition(path: string, paths: seq<string>)
    requires |paths| >= 1
    ensures var name, rest := ReplaceFirst(paths[0], '_', ':'), paths[1..];
      var k := FirstMarker(rest);
      var prefix := Join([name] + rest[..k], '/');
      Reconstruct(path, paths) ==
        if k == |rest| then Ok(prefix)
        else if rest[k] == TagsDir then
          (if k == |rest| - 2 then Ok(prefix + ":" + rest[k + 1]) else Err(InvalidPath(path)))
        else
          (if k == |rest| - 3 then Ok(prefix + "@" + rest[k + 1] + ":" + rest[k + 2]) else Err(InvalidPath(path)))
  {
    var name, rest := ReplaceFirst(paths[0], '_', ':'), paths[1..];
    var k := FirstMarker(rest);
    assert rest == rest[..k] + rest[k..];
    ScanPastName(path, name, rest[..k], rest[k..]);
    if k < |rest| {
      assert rest[k..][1..] == rest[k + 1..];
    }
  }

  // ---------------------------------------------------------------------------
  // Round trip and collision freedom

  /**
   * A reference the layout can hold and give back: its text is unambiguous,
   * the '_' standing for the host's ':' cannot be confused with a '_' already
   * in the first component, no later component reads as a marker, and the
   * digest parts are single path segments (the tag already is).
   */
  predicate Storable(r: Reference)
  {
    && Unambiguous(r)
    && '_' !in Domain(r.name)
    && (forall i :: 1 <= i < |Split(r.name, '/')| ==> !IsMarker(Split(r.name, '/')[i]))
    && (r.IsDigested() ==> '/' !in r.alg && '/' !in r.hex)
  }

  /** The first segment of a name is its domain. */
  lemma SplitHead(n: string)
    ensures Split(n, '/')[0] == Domain(n)
  {
    if IndexOf(n, '/') == |n| {
      assert n[..|n|] == n;
    }
  }

  /** ReplaceFirst leaves a string alone when the character is not in it. */
  lemma ReplaceFirstAbsent(s: string, from: char, to: char)
    requires from !in s
    ensures ReplaceFirst(s, from, to) == s
  {
    IndexOfAbsent(s, from);
  }

  /**
   * Encoding the host's ':' only touches the first segment: the encoded
   * name splits into the encoded domain followed by the name's other
   * components.
   */
  lemma SplitEncodedName(n: string)
    requires UnambiguousName(n)
    ensures Split(ReplaceFirst(n, ':', '_'), '/') == [ReplaceFirst(Domain(n), ':', '_')] + Split(n, '/')[1..]
  {
    var j := IndexOf(n, '/');
    if j == |n| {
      ReplaceFirstAbsent(n, ':', '_');
      assert Domain(n) == n;
      SplitNoSep(n, '/');
    } else {
      var d := n[..j];
      var encD := ReplaceFirst(d, ':', '_');
      assert n == d + "/" + n[j + 1..];
      ReplaceFirstInHead(d, n[j + 1..]);
      ReplaceFirstKeeps(d, ':', '_', '/');
      SplitAppend(encD, n[j + 1..], '/');
      SplitNoSep(encD, '/');
      SplitAtFirst(n, '/');
    }
  }

  lemma SplitAtFirst(s: string, sep: char)
    requires IndexOf(s, sep) < |s|
    ensures Split(s, sep)[1..] == Split(s[IndexOf(s, sep) + 1..], sep)
  {
    SplitCons(s, sep);
  }

  /** When the text after the first component has no ':', encoding only touches that component. */
  lemma ReplaceFirstInHead(d: string, rest: string)
    requires ':' !in rest
    ensures ReplaceFirst(d + "/" + rest, ':', '_') == ReplaceFirst(d, ':', '_') + "/" + rest
  {
    var s := d + "/" + rest;
    var i := IndexOf(d, ':');
    if i < |d| {
      forall k | 0 <= k < i
        ensures s[k] != ':'
      {
        assert s[k] == d[k];
      }
      IndexOfAt(s, ':', i);
    } else {
      assert ':' !in s;
      IndexOfAbsent(s, ':');
      IndexOfAbsent(d, ':');
    }
    var l := ReplaceFirst(s, ':', '_');
    var r := ReplaceFirst(d, ':', '_') + "/" + rest;
    assert forall k :: 0 <= k < |s| ==> l[k] == r[k];
  }

  /** Replacing one character by another never introduces a third. */
  lemma ReplaceFirstKeeps(s: string, from: char, to: char, c: char)
    requires c !in s && c != to
    ensures c !in ReplaceFirst(s, from, to)
  {
  }

  /** The relative segments of a stored reference's path: the encoded name, then the marker and the key. */
  lemma StoreSegments(root: string, r: Reference)
    requires Storable(r) && !r.Bare?
    ensures var encoded := Split(ReplaceFirst(r.name, ':', '_'), '/');
      RelativeSegments(root, StorePath(root, r).value) ==
        if r.IsDigested() then encoded + [DigestsDir, r.alg, r.hex + Extension]
        else encoded + [TagsDir, r.tag + Extension]
  {
    var enc := ReplaceFirst(r.name, ':', '_');
    if r.IsDigested() {
      DigestSegments(enc, r.alg, r.hex);
    } else {
      TagSegments(enc, r.tag);
    }
  }

  /** Two more single segments appended to a path split off as two more segments. */
  lemma SplitTwoMore(a: string, b: string, c: string)
    requires '/' !in b && '/' !in c
    ensures Split(a + "/" + b + "/" + c, '/') == Split(a, '/') + [b, c]
  {
    var tail := b + "/" + c;
    assert a + "/" + b + "/" + c == a + "/" + tail;
    assert Split(tail, '/') == [b, c] by {
      SplitAppend(b, c, '/');
      SplitNoSep(b, '/');
      SplitNoSep(c, '/');
    }
    SplitAppend(a, tail, '/');
  }

  lemma TagSegments(enc: string, tag: string)
    requires '/' !in tag
    ensures Split(enc + "/" + TagsDir + "/" + tag + Extension, '/') == Split(enc, '/') + [TagsDir, tag + Extension]
  {
    assert enc + "/" + TagsDir + "/" + tag + Extension == enc + "/" + TagsDir + "/" + (tag + Extension);
    SplitTwoMore(enc, TagsDir, tag + Extension);
  }

  /** Three more single segments appended to a path split off as three more segments. */
  lemma SplitThreeMore(a: string, b: string, c: string, d: string)
    requires '/' !in b && '/' !in c && '/' !in d
    ensures Split(a + "/" + b + "/" + c + "/" + d, '/') == Split(a, '/') + [b, c, d]
  {
    var mid := a + "/" + b;
    assert a + "/" + b + "/" + c + "/" + d == mid + "/" + c + "/" + d;
    SplitTwoMore(mid, c, d);
    SplitAppend(a, b, '/');
    SplitNoSep(b, '/');
  }

  lemma DigestSegments(enc: string, alg: string, hex: string)
    requires '/' !in alg && '/' !in hex
    ensures Split(enc + "/" + DigestsDir + "/" + alg + "/" + hex + Extension, '/') == Split(enc, '/') + [DigestsDir, alg, hex + Extension]
  {
    assert enc + "/" + DigestsDir + "/" + alg + "/" + hex + Extension == enc + "/" + DigestsDir + "/" + alg + "/" + (hex + Extension);
    SplitThreeMore(enc, DigestsDir, alg, hex + Extension);
  }

  /** The encoded name's segments followed by more: the encoded domain first, then the name's other components. */
  lemma EncodedSegments(n: string, tail: seq<string>)
    requires UnambiguousName(n)
    ensures var segs := Split(ReplaceFirst(n, ':', '_'), '/') + tail;
      segs[0] == ReplaceFirst(Domain(n), ':', '_') && segs[1..] == Split(n, '/')[1..] + tail
  {
    SplitEncodedName(n);
    ConsAppend(Split(ReplaceFirst(n, ':', '_'), '/'), ReplaceFirst(Domain(n), ':', '_'), Split(n, '/')[1..], tail);
  }

  lemma ConsAppend<T>(s: seq<T>, head: T, rest: seq<T>, tail: seq<T>)
    requires s == [head] + rest
    ensures (s + tail)[0] == head && (s + tail)[1..] == rest + tail
  {
  }

  /**
   * After the encoded name's segments, the scan stands where it would had
   * it started from the whole original name: the domain's '_' is turned
   * back into ':' and the other components are joined back on.
   */
  lemma RebuildName(path: string, n: string, tail: seq<string>)
    requires UnambiguousName(n) && '_' !in Domain(n)
    requires forall i :: 1 <= i < |Split(n, '/')| ==> !IsMarker(Split(n, '/')[i])
    ensures var segs := Split(ReplaceFirst(n, ':', '_'), '/') + tail;
      Reconstruct(path, segs) == ScanMarkers(path, n, tail)
  {
    var comps := Split(n, '/');
    var dom := Domain(n);
    var segs := Split(ReplaceFirst(n, ':', '_'), '/') + tail;
    EncodedSegments(n, tail);
    assert ReplaceFirst(segs[0], '_', ':') == dom by {
      ReplaceFirstUndone(dom, ':', '_');
    }
    assert forall i :: 0 <= i < |comps[1..]| ==> !IsMarker(comps[1..][i]) by {
      forall i | 0 <= i < |comps[1..]|
        ensures !IsMarker(comps[1..][i])
      {
        assert comps[1..][i] == comps[i + 1];
      }
    }
    ScanPastName(path, dom, comps[1..], tail);
    assert Join([dom] + comps[1..], '/') == n by {
      SplitHead(n);
      assert [dom] + comps[1..] == comps;
    }
  }

  /** Taking ".json" off a last segment that ends with it. */
  lemma StripExtensionOf(init: seq<string>, last: string)
    ensures StripExtension(init + [last + Extension]) == init + [last]
  {
    TrimSuffixOf(last, Extension);
    assert (init + [last + Extension])[..|init|] == init;
  }

  /** A last segment without ".json" at its end is left as it is. */
  lemma StripExtensionNone(paths: seq<string>)
    requires |paths| >= 1 && !HasSuffix(paths[|paths| - 1], Extension)
    ensures StripExtension(paths) == paths
  {
    assert paths[..|paths| - 1] + [paths[|paths| - 1]] == paths;
  }

  /**
   * Round trip at the level of reconstructNamedReference: strip the root and
   * ".json" from a tagged or digested reference's store path, and the
   * segments rebuild exactly the reference's canonical text.
   */
  lemma ReconstructRoundTrip(root: string, r: Reference)
    requires Storable(r) && (r.Tagged? || r.Digested?)
    ensures var path := StorePath(root, r).value;
      Reconstruct(path, StripExtension(RelativeSegments(root, path))) == Ok(String(r))
  {
    if r.Tagged? {
      TaggedRoundTrip(root, r.name, r.tag);
    } else {
      DigestedRoundTrip(root, r.name, r.alg, r.hex);
    }
  }

  /** The segments of a tagged path rebuild `name:tag`, whatever the full path is. */
  lemma TaggedScan(path: string, n: string, t: string)
    requires Storable(Tagged(n, t))
    ensures Reconstruct(path, StripExtension(Split(ReplaceFirst(n, ':', '_'), '/') + [TagsDir, t + Extension])) == Ok(n + ":" + t)
  {
    var encoded := Split(ReplaceFirst(n, ':', '_'), '/');
    Snoc2(encoded, TagsDir, t + Extension);
    StripExtensionOf(encoded + [TagsDir], t);
    Snoc2(encoded, TagsDir, t);
    RebuildName(path, n, [TagsDir, t]);
  }

  /** Appending two elements is appending one and then the other. */
  lemma Snoc2<T>(s: seq<T>, x: T, y: T)
    ensures s + [x, y] == (s + [x]) + [y]
  {
  }

  /** Appending three elements is appending two and then the third. */
  lemma Snoc3<T>(s: seq<T>, x: T, y: T, z: T)
    ensures s + [x, y, z] == (s + [x, y]) + [z]
  {
  }

  lemma TaggedRoundTrip(root: string, n: string, t: string)
    requires Storable(Tagged(n, t))
    ensures var path := StorePath(root, Tagged(n, t)).value;
      Reconstruct(path, StripExtension(RelativeSegments(root, path))) == Ok(n + ":" + t)
  {
    StoreSegments(root, Tagged(n, t));
    TaggedScan(StorePath(root, Tagged(n, t)).value, n, t);
  }

  /** The segments of a digested path rebuild `name@alg:hex`, whatever the full path is. */
  lemma DigestedScan(path: string, n: string, a: string, h: string)
    requires Storable(Digested(n, a, h))
    ensures Reconstruct(path, StripExtension(Split(ReplaceFirst(n, ':', '_'), '/') + [DigestsDir, a, h + Extension])) == Ok(n + "@" + a + ":" + h)
  {
    var encoded := Split(ReplaceFirst(n, ':', '_'), '/');
    Snoc3(encoded, DigestsDir, a, h + Extension);
    StripExtensionOf(encoded + [DigestsDir, a], h);
    Snoc3(encoded, DigestsDir, a, h);
    RebuildName(path, n, [DigestsDir, a, h]);
  }

  lemma DigestedRoundTrip(root: string, n: string, a: string, h: string)
    requires Storable(Digested(n, a, h))
    ensures var path := StorePath(root, Digested(n, a, h)).value;
      Reconstruct(path, StripExtension(RelativeSegments(root, path))) == Ok(n + "@" + a + ":" + h)
  {
    StoreSegments(root, Digested(n, a, h));
    DigestedScan(StorePath(root, Digested(n, a, h)).value, n, a, h);
  }

  /** The decoder's last step: segments that pass both checks and rebuild an unambiguous reference's text parse back to it. */
  lemma DecodeRebuilt(root: string, path: string, r: Reference)
    requires Unambiguous(r)
    requires var paths := RelativeSegments(root, path);
      |paths| >= 3 && Contains(paths[|paths| - 1], Extension) &&
      Reconstruct(path, StripExtension(paths)) == Ok(String(r))
    ensures PathToReference(root, path) == Ok(r)
  {
    ParseString(r);
  }

  /** Round trip through the whole decoder: a stored tagged or digested reference is read back as itself. */
  lemma PathRoundTrip(root: string, r: Reference)
    requires Storable(r) && (r.Tagged? || r.Digested?)
    ensures PathToReference(root, StorePath(root, r).value) == Ok(r)
  {
    var path := StorePath(root, r).value;
    var paths := RelativeSegments(root, path);
    StoreSegments(root, r);
    ReconstructRoundTrip(root, r);
    var last := if r.Digested? then r.hex + Extension else r.tag + Extension;
    assert paths[|paths| - 1] == last;
    SuffixContained(last, Extension);
    DecodeRebuilt(root, path, r);
  }

  /** No clashes: different tagged or digested references are filed at different paths. */
  lemma NoCollisions(root: string, r1: Reference, r2: Reference)
    requires Storable(r1) && (r1.Tagged? || r1.Digested?)
    requires Storable(r2) && (r2.Tagged? || r2.Digested?)
    requires r1 != r2
    ensures StorePath(root, r1) != StorePath(root, r2)
  {
    PathRoundTrip(root, r1);
    PathRoundTrip(root, r2);
  }

  /**
   * A reference with both a tag and a digest is filed under its digest
   * alone, exactly where the digest-only reference goes, and reads back as
   * that digest-only reference.
   */
  lemma DigestTakesPrecedence(root: string, n: string, t: string, a: string, h: string)
    requires Storable(TaggedDigested(n, t, a, h))
    ensures StorePath(root, TaggedDigested(n, t, a, h)) == StorePath(root, Digested(n, a, h))
    ensures PathToReference(root, StorePath(root, TaggedDigested(n, t, a, h)).value) == Ok(Digested(n, a, h))
  {
    PathRoundTrip(root, Digested(n, a, h));
  }

  // ---------------------------------------------------------------------------
  // The ".json" check and the walk's own filter

  /** No position inside a suffix holds a character the suffix lacks. */
  lemma SuffixAvoids(s: string, x: string, c: char)
    requires HasSuffix(s, x) && c !in x
    ensures forall k :: |s| - |x| <= k < |s| ==> s[k] != c
  {
    forall k | |s| - |x| <= k < |s|
      ensures s[k] != c
    {
      assert s[k] == s[|s| - |x|..][k - (|s| - |x|)];
    }
  }

  /** The last piece of a split string ends with every separator-free suffix of the string. */
  lemma {:induction false} SplitLastSuffix(s: string, x: string, sep: char)
    requires HasSuffix(s, x) && sep !in x
    ensures var parts := Split(s, sep); HasSuffix(parts[|parts| - 1], x)
    decreases |s|
  {
    var i := IndexOf(s, sep);
    if i < |s| {
      SuffixAvoids(s, x, sep);
      assert i + 1 <= |s| - |x|;
      SuffixOfDrop(s, x, i + 1);
      SplitLastSuffix(s[i + 1..], x, sep);
      SplitCons(s, sep);
      LastOfCons(Split(s, sep), s[..i], Split(s[i + 1..], sep));
    }
  }

  /** Dropping a prefix no longer than the part before a suffix keeps the suffix. */
  lemma SuffixOfDrop(s: string, x: string, i: nat)
    requires HasSuffix(s, x) && i <= |s| - |x|
    ensures HasSuffix(s[i..], x)
  {
    assert s[i..][|s[i..]| - |x|..] == s[|s| - |x|..];
  }

  lemma LastOfCons<T>(s: seq<T>, head: T, rest: seq<T>)
    requires s == [head] + rest && |rest| >= 1
    ensures s[|s| - 1] == rest[|rest| - 1]
  {
  }

  /** Stripping the root keeps a separator-free suffix of a path below the root. */
  lemma TrimRootSuffix(root: string, p: string, x: string)
    requires HasSuffix(p, x) && '/' !in x
    ensures HasSuffix(TrimPrefix(p, root + "/"), x)
  {
    var pre := root + "/";
    if HasPrefix(p, pre) {
      var rest := p[|pre|..];
      assert p[|pre| - 1] == '/' by {
        assert p[..|pre|][|pre| - 1] == pre[|pre| - 1];
      }
      SuffixAvoids(p, x, '/');
      assert |pre| - 1 < |p| - |x|;
      assert rest[|rest| - |x|..] == p[|p| - |x|..];
    }
  }

  /**
   * A path whose name ends with ".json", the only kind List decodes, always
   * passes the ".json" check: its last segment ends with, hence contains, it.
   */
  lemma JsonNameNotRejected(root: string, p: string)
    requires HasSuffix(p, Extension)
    ensures PathToReference(root, p) != Err(NotJson(p))
  {
    TrimRootSuffix(root, p, Extension);
    var paths := RelativeSegments(root, p);
    SplitLastSuffix(TrimPrefix(p, root + "/"), Extension, '/');
    SuffixContained(paths[|paths| - 1], Extension);
  }

  /**
   * The check is for ".json" anywhere in the last segment, not at its end:
   * a file named by a tag such as `v.json.1`, with no extension after it,
   * still decodes, to that tag.
   */
  lemma ContainsNotSuffix(root: string, n: string, t: string)
    requires Storable(Tagged(n, t)) && Contains(t, Extension) && !HasSuffix(t, Extension)
    ensures PathToReference(root, root + "/" + (ReplaceFirst(n, ':', '_') + "/" + TagsDir + "/" + t)) == Ok(Tagged(n, t))
  {
    var path := root + "/" + (ReplaceFirst(n, ':', '_') + "/" + TagsDir + "/" + t);
    TagFileSegments(root, n, t);
    TagFileScan(path, n, t);
    DecodeRebuilt(root, path, Tagged(n, t));
  }

  lemma TagFileSegments(root: string, n: string, t: string)
    requires '/' !in t
    ensures RelativeSegments(root, root + "/" + (ReplaceFirst(n, ':', '_') + "/" + TagsDir + "/" + t)) ==
      Split(ReplaceFirst(n, ':', '_'), '/') + [TagsDir, t]
  {
    TrimPrefixOf(root + "/", ReplaceFirst(n, ':', '_') + "/" + TagsDir + "/" + t);
    SplitTwoMore(ReplaceFirst(n, ':', '_'), TagsDir, t);
  }

  lemma TagFileScan(path: string, n: string, t: string)
    requires Storable(Tagged(n, t)) && !HasSuffix(t, Extension)
    ensures Reconstruct(path, StripExtension(Split(ReplaceFirst(n, ':', '_'), '/') + [TagsDir, t])) == Ok(n + ":" + t)
  {
    var paths := Split(ReplaceFirst(n, ':', '_'), '/') + [TagsDir, t];
    assert paths[|paths| - 1] == t;
    StripExtensionNone(paths);
    RebuildName(path, n, [TagsDir, t]);
  }
}
