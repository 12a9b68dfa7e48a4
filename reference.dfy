/**
 * Registry references as the bundle store sees them (docker/distribution's
 * `reference.Named` and its Tagged / Digested refinements), their string
 * form, the default-tag normalisation and a structural parser.
 */
module References {
  import opened Errors
  import opened Strings

  /**
   * A repository name with an optional tag and an optional digest
   * (algorithm and hex-encoded hash). A value with both is what the
   * registry library returns for `name:tag@alg:hex`: it is both a
   * Tagged and a Digested reference.
   */
  datatype Reference =
    | Bare(name: string)
    | Tagged(name: string, tag: string)
    | Digested(name: string, alg: string, hex: string)
    | TaggedDigested(name: string, tag: string, alg: string, hex: string)
  {
    /** The reference satisfies the `reference.Tagged` interface. */
    predicate IsTagged() { Tagged? || TaggedDigested? }

    /** The reference satisfies the `reference.Digested` interface. */
    predicate IsDigested() { Digested? || TaggedDigested? }
  }

  /** `ref.String()`: the canonical text of a reference. */
  function String(r: Reference): (s: string)
    ensures HasPrefix(s, r.name)
    ensures Unambiguous(r) ==> (r.IsDigested() <==> '@' in s)
  {
    match r
    case Bare(n) => n
    case Tagged(n, t) => n + ":" + t
    case Digested(n, a, h) => n + "@" + a + ":" + h
    case TaggedDigested(n, t, a, h) => n + ":" + t + "@" + a + ":" + h
  }

  const DefaultTag := "latest"

  /** reference.TagNameOnly: a reference with neither tag nor digest gets the tag `latest`. */
  function TagNameOnly(r: Reference): (t: Reference)
    ensures t.name == r.name
    ensures t.IsTagged() || t.IsDigested()
    ensures r.IsTagged() || r.IsDigested() ==> t == r
    ensures r.Bare? ==> t.Tagged? && t.tag == DefaultTag
  {
    if r.Bare? then Tagged(r.name, DefaultTag) else r
  }

  /**
   * Splits the text before any '@' into name and tag: text after the last
   * ':' is a tag unless a '/' follows that ':' (then the ':' belongs to a
   * `host:port` prefix of the name).
   */
  function SplitTag(nameTag: string): (string, Option<string>)
  {
    var colon := LastIndexOf(nameTag, ':');
    if colon >= 0 && '/' !in nameTag[colon + 1..] then (nameTag[..colon], Some(nameTag[colon + 1..]))
    else (nameTag, None)
  }

  /** Splits a digest `alg:hex` at its first ':'. */
  function SplitDigest(digest: string): Option<(string, string)>
  {
    var sep := IndexOf(digest, ':');
    if sep == |digest| then None else Some((digest[..sep], digest[sep + 1..]))
  }

  /**
   * reference.ParseNamed, structurally: everything after the first '@' is
   * the digest, what precedes it is a name with an optional tag; no part
   * may be empty.
   */
  function ParseNamed(s: string): (r: Result<Reference>)
    ensures r.Err? ==> r.error == Unparsable(s)
  {
    var at := IndexOf(s, '@');
    var (name, tag) := SplitTag(s[..at]);
    if name == [] || tag == Some([]) then Err(Unparsable(s))
    else if at == |s| then
      Ok(if tag.Some? then Tagged(name, tag.value) else Bare(name))
    else
      match SplitDigest(s[at + 1..])
      case None => Err(Unparsable(s))
      case Some((alg, hex)) =>
        if alg == [] || hex == [] then Err(Unparsable(s))
        else if tag.Some? then Ok(TaggedDigested(name, tag.value, alg, hex))
        else Ok(Digested(name, alg, hex))
  }

  /** The first '/'-separated component of a name: the registry host in a normalised name. */
  function Domain(n: string): string
  {
    n[..IndexOf(n, '/')]
  }

  /**
   * A name whose text cannot be misread: non-empty, no '@', and any ':' sits
   * in the first component (a `host:port` prefix) with more of the name after it.
   */
  predicate UnambiguousName(n: string)
  {
    && n != []
    && '@' !in n
    && ':' !in n[IndexOf(n, '/')..]
    && (':' in n ==> '/' in n)
  }

  predicate UnambiguousTag(t: string)
  {
    t != [] && ':' !in t && '/' !in t && '@' !in t
  }

  predicate UnambiguousDigest(alg: string, hex: string)
  {
    alg != [] && ':' !in alg && hex != []
  }

  /** A reference whose canonical text parses back to it. */
  predicate Unambiguous(r: Reference)
  {
    && UnambiguousName(r.name)
    && (r.IsTagged() ==> UnambiguousTag(r.tag))
    && (r.IsDigested() ==> UnambiguousDigest(r.alg, r.hex))
  }

  /** An unambiguous name carries no tag: any ':' in it is followed, somewhere later, by a '/'. */
  lemma SplitTagOfName(n: string)
    requires UnambiguousName(n)
    ensures SplitTag(n) == (n, None)
  {
    var c := LastIndexOf(n, ':');
    var j := IndexOf(n, '/');
    forall k | j <= k < |n|
      ensures n[k] != ':'
    {
      assert n[j..][k - j] == n[k];
    }
    if c >= 0 {
      assert n[c] in n;
      assert n[c + 1..][j - c - 1] == '/';
    }
  }

  /** `name:tag` splits back into name and tag when the tag has no ':' and no '/'. */
  lemma SplitTagOfTagged(n: string, t: string)
    requires ':' !in t && '/' !in t
    ensures SplitTag(n + ":" + t) == (n, Some(t))
  {
    var s := n + ":" + t;
    forall k | |n| < k < |s|
      ensures s[k] != ':'
    {
      assert s[k] == t[k - |n| - 1];
    }
    LastIndexOfAt(s, ':', |n|);
    assert s[|n| + 1..] == t && s[..|n|] == n;
  }

  /** `alg:hex` splits back into its two parts when the algorithm has no ':'. */
  lemma SplitDigestOf(a: string, h: string)
    requires ':' !in a
    ensures SplitDigest(a + ":" + h) == Some((a, h))
  {
    var d := a + ":" + h;
    forall k | 0 <= k < |a|
      ensures d[k] != ':'
    {
      assert d[k] == a[k];
    }
    IndexOfAt(d, ':', |a|);
    assert d[..|a|] == a && d[|a| + 1..] == h;
  }

  /** The first '@' of `s + "@" + rest` is the one after `s`, when `s` has none. */
  lemma AtAfter(s: string, rest: string)
    requires '@' !in s
    ensures var t := s + "@" + rest; IndexOf(t, '@') == |s| && t[..|s|] == s && t[|s| + 1..] == rest
  {
    var t := s + "@" + rest;
    forall k | 0 <= k < |s|
      ensures t[k] != '@'
    {
      assert t[k] == s[k];
    }
    IndexOfAt(t, '@', |s|);
  }

  lemma Concat3<T>(p: seq<T>, q: seq<T>, r: seq<T>, s: seq<T>)
    ensures p + (q + r + s) == p + q + r + s
  {
  }

  lemma ParseBare(n: string)
    requires UnambiguousName(n)
    ensures ParseNamed(String(Bare(n))) == Ok(Bare(n))
  {
    IndexOfAbsent(n, '@');
    assert n[..|n|] == n;
    SplitTagOfName(n);
  }

  lemma ParseTagged(n: string, t: string)
    requires UnambiguousName(n) && UnambiguousTag(t)
    ensures ParseNamed(String(Tagged(n, t))) == Ok(Tagged(n, t))
  {
    var s := n + ":" + t;
    assert '@' !in s;
    IndexOfAbsent(s, '@');
    assert s[..|s|] == s;
    SplitTagOfTagged(n, t);
  }

  lemma ParseDigested(n: string, a: string, h: string)
    requires UnambiguousName(n) && UnambiguousDigest(a, h)
    ensures ParseNamed(String(Digested(n, a, h))) == Ok(Digested(n, a, h))
  {
    Concat3(n + "@", a, ":", h);
    SplitTagOfName(n);
    SplitDigestOf(a, h);
    ParseWithDigest(String(Digested(n, a, h)), n, a + ":" + h, n, None, a, h);
  }

  lemma ParseTaggedDigested(n: string, t: string, a: string, h: string)
    requires UnambiguousName(n) && UnambiguousTag(t) && UnambiguousDigest(a, h)
    ensures ParseNamed(String(TaggedDigested(n, t, a, h))) == Ok(TaggedDigested(n, t, a, h))
  {
    var b := n + ":" + t;
    Concat3(b + "@", a, ":", h);
    assert '@' !in b;
    SplitTagOfTagged(n, t);
    SplitDigestOf(a, h);
    ParseWithDigest(String(TaggedDigested(n, t, a, h)), b, a + ":" + h, n, Some(t), a, h);
  }

  /** A text with an '@' parses from what SplitTag makes of the part before it and SplitDigest of the part after. */
  lemma ParseWithDigest(s: string, before: string, digest: string, name: string, tag: Option<string>, a: string, h: string)
    requires s == before + "@" + digest && '@' !in before
    requires SplitTag(before) == (name, tag) && SplitDigest(digest) == Some((a, h))
    requires name != [] && tag != Some([]) && a != [] && h != []
    ensures ParseNamed(s) == Ok(if tag.Some? then TaggedDigested(name, tag.value, a, h) else Digested(name, a, h))
  {
    AtAfter(before, digest);
  }

  /** The canonical text of an unambiguous reference parses back to that reference. */
  lemma ParseString(r: Reference)
    requires Unambiguous(r)
    ensures ParseNamed(String(r)) == Ok(r)
  {
    match r
    case Bare(n) => ParseBare(n);
    case Tagged(n, t) => ParseTagged(n, t);
    case Digested(n, a, h) => ParseDigested(n, a, h);
    case TaggedDigested(n, t, a, h) => ParseTaggedDigested(n, t, a, h);
  }
}
