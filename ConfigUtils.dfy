/**
 * The configuration helpers of the stream convertor (config_utils.h):
 * dash filtering of option names and the merge of a user's YAML
 * configuration over the defaults.
 */
module ConfigUtils {
  import opened Wrappers

  // ---------------------------------------------------------------- charfilter

  const DASH: char := '-'
  const NUL: char := 0 as char

  /** The characters of s other than '-', in order. */
  function Undashed(s: string): (t: string)
    ensures |t| <= |s|
  {
    if s == [] then []
    else Undashed(s[..|s| - 1]) + (if s[|s| - 1] == DASH then [] else [s[|s| - 1]])
  }

  /** No '-' survives the filter. */
  lemma {:induction false} UndashedHasNoDash(s: string)
    ensures DASH !in Undashed(s)
  {
    if s != [] {
      UndashedHasNoDash(s[..|s| - 1]);
    }
  }

  /** Filtering twice is filtering once. */
  lemma {:induction false} UndashedIdempotent(s: string)
    ensures Undashed(Undashed(s)) == Undashed(s)
  {
    UndashedHasNoDash(s);
    UndashedOfDashless(Undashed(s));
  }

  /** A string without '-' passes unchanged. */
  lemma {:induction false} UndashedOfDashless(s: string)
    requires DASH !in s
    ensures Undashed(s) == s
  {
    if s != [] {
      UndashedOfDashless(s[..|s| - 1]);
    }
  }

  /** Filtering a prefix gives a prefix of the filtered string. */
  lemma {:induction false} UndashedPrefix(s: string, k: nat)
    requires k <= |s|
    ensures Undashed(s[..k]) <= Undashed(s)
    decreases |s|
  {
    if k < |s| {
      assert s[..|s| - 1][..k] == s[..k];
      UndashedPrefix(s[..|s| - 1], k);
    } else {
      assert s[..k] == s;
    }
  }

  /** Taking one more character. */
  lemma UndashedStep(s: string, k: nat)
    requires k < |s|
    ensures Undashed(s[..k + 1]) == Undashed(s[..k]) + (if s[k] == DASH then [] else [s[k]])
  {
    assert s[..k + 1][..k] == s[..k];
  }

  function Min(a: nat, b: nat): nat
  {
    if a < b then a else b
  }

  /** The inner loop of charfilter: past the run of '-' starting at k, which filtering drops. */
  method SkipDashes(src: string, k0: nat) returns (k: nat)
    requires k0 <= |src|
    ensures k0 <= k <= |src|
    ensures k < |src| ==> src[k] != DASH
    ensures Undashed(src[..k]) == Undashed(src[..k0])
  {
    k := k0;
    while k < |src| && src[k] == DASH
      invariant k0 <= k <= |src|
      invariant Undashed(src[..k]) == Undashed(src[..k0])
    {
      UndashedStep(src, k);
      k := k + 1;
    }
  }

  /**
   * ConfigGroup::charfilter(dst, src, extract, maxlen): copies the first
   * maxlen characters of src that are not '-' to dst, in order, ends them
   * with a NUL and returns how many it copied. `src` is the C string's
   * characters before its terminator; the `extract` argument is not used by
   * the source, which always drops '-'.
   */
  method Charfilter(dst: array<char>, src: string, maxlen: nat) returns (count: nat)
    requires NUL !in src
    requires dst.Length > Min(maxlen, |Undashed(src)|)
    modifies dst
    ensures count == Min(maxlen, |Undashed(src)|)
    ensures dst[..count] == Undashed(src)[..count]
    ensures dst[count] == NUL
    ensures forall j :: count < j < dst.Length ==> dst[j] == old(dst[j])
  {
    var i: nat := 0;
    var k: nat := 0;
    while k < |src| && i < maxlen
      invariant k <= |src| && i <= maxlen
      invariant i == |Undashed(src[..k])| && i < dst.Length
      invariant dst[..i] == Undashed(src[..k])
      invariant forall j :: i <= j < dst.Length ==> dst[j] == old(dst[j])
    {
      k := SkipDashes(src, k);
      if k == |src| {
        break;
      }
      ghost var before := dst[..i];
      assert i + 1 < dst.Length && before + [src[k]] == Undashed(src[..k + 1]) by {
        UndashedStep(src, k);
        UndashedPrefix(src, k + 1);
      }
      dst[i] := src[k];
      assert dst[..i + 1] == before + [src[k]];
      i := i + 1;
      k := k + 1;
    }
    assert i == Min(maxlen, |Undashed(src)|) && dst[..i] == Undashed(src)[..i] by {
      UndashedPrefix(src, k);
      if k == |src| {
        assert src[..k] == src;
      }
    }
    dst[i] := NUL;
    return i;
  }

  // ---------------------------------------------------------------- mergeConfig

  /** A YAML node: the kinds yaml-cpp distinguishes; a map's entries in order. */
  datatype Node = Undefined | Null | Scalar(text: string) | Sequence(items: seq<Node>) | Map(entries: seq<Entry>)
  datatype Entry = Entry(key: string, value: Node)

  /** node[key] on a map: the value of the first entry with that key. */
  function Lookup(es: seq<Entry>, key: string): (v: Option<Node>)
    ensures v.Some? <==> exists j :: 0 <= j < |es| && es[j].key == key
  {
    if es == [] then None
    else if es[0].key == key then Some(es[0].value)
    else Lookup(es[1..], key)
  }

  /** node[key] read from a const node: Undefined when the key is absent. */
  function Get(es: seq<Entry>, key: string): Node
  {
    match Lookup(es, key)
    case Some(v) => v
    case None => Undefined
  }

  /** node[key] = v: replaces the value of the first entry with the key, or appends one. */
  function Assign(es: seq<Entry>, key: string, v: Node): (r: seq<Entry>)
    ensures |r| == |es| || |r| == |es| + 1
  {
    if es == [] then [Entry(key, v)]
    else if es[0].key == key then [Entry(key, v)] + es[1..]
    else [es[0]] + Assign(es[1..], key, v)
  }

  lemma {:induction false} LookupAssign(es: seq<Entry>, key: string, v: Node, k: string)
    ensures Lookup(Assign(es, key, v), k) == if k == key then Some(v) else Lookup(es, k)
  {
    if es != [] && es[0].key != key {
      var r := Assign(es, key, v);
      assert r[0] == es[0] && r[1..] == Assign(es[1..], key, v);
      LookupAssign(es[1..], key, v, k);
    }
  }

  /**
   * mergeConfig(lhs, rhs): a copy of rhs unless both are maps; for two
   * maps, a copy of lhs into which every rhs entry is written, merged with
   * lhs's value for the key when the key is already present.
   */
  function Merge(l: Node, r: Node): (m: Node)
    ensures !l.Map? || !r.Map? ==> m == r
    ensures l.Map? && r.Map? ==> m.Map?
    decreases r, 1
  {
    if !l.Map? || !r.Map? then r
    else Map(MergeFrom(l.entries, l.entries, r, 0))
  }

  /** The loop of mergeConfig from rhs entry i on, `ret` being the map built so far. */
  function MergeFrom(ret: seq<Entry>, lhs: seq<Entry>, r: Node, i: nat): seq<Entry>
    requires r.Map? && i <= |r.entries|
    decreases r, 0, |r.entries| - i
  {
    if i == |r.entries| then ret
    else
      var e := r.entries[i];
      assert e.value < e;
      var v := if Lookup(ret, e.key).Some? then Merge(Get(lhs, e.key), e.value) else e.value;
      MergeFrom(Assign(ret, e.key, v), lhs, r, i + 1)
  }

  /** YAML map keys are distinct. */
  predicate UniqueKeys(es: seq<Entry>)
  {
    forall a, b :: 0 <= a < b < |es| ==> es[a].key != es[b].key
  }

  /**
   * The loop from entry i on: a key written by a later rhs entry ends with
   * that entry merged over lhs's value, any other key keeps its value in
   * `ret`, provided every lhs key is already in `ret`.
   */
  lemma {:induction false} MergeFromLookup(ret: seq<Entry>, lhs: seq<Entry>, r: Node, i: nat, k: string)
    requires r.Map? && i <= |r.entries| && UniqueKeys(r.entries)
    requires Lookup(lhs, k).Some? ==> Lookup(ret, k).Some?
    ensures Lookup(MergeFrom(ret, lhs, r, i), k) ==
      if exists j :: i <= j < |r.entries| && r.entries[j].key == k
      then Some(Merge(Get(lhs, k), Get(r.entries, k)))
      else Lookup(ret, k)
    decreases |r.entries| - i
  {
    if i < |r.entries| {
      var e := r.entries[i];
      var v := if Lookup(ret, e.key).Some? then Merge(Get(lhs, e.key), e.value) else e.value;
      var next := Assign(ret, e.key, v);
      LookupAssign(ret, e.key, v, k);
      MergeFromLookup(next, lhs, r, i + 1, k);
      if e.key == k {
        LookupAt(r.entries, i);
        assert forall j :: i < j < |r.entries| ==> r.entries[j].key != k;
      }
    }
  }

  /** With distinct keys, the entry at j is the one a lookup of its key finds. */
  lemma {:induction false} LookupAt(es: seq<Entry>, j: nat)
    requires j < |es| && UniqueKeys(es)
    ensures Lookup(es, es[j].key) == Some(es[j].value)
  {
    if j > 0 {
      assert UniqueKeys(es[1..]) by {
        forall a, b | 0 <= a < b < |es| - 1
          ensures es[1..][a].key != es[1..][b].key
        {
          assert es[1..][a] == es[a + 1] && es[1..][b] == es[b + 1];
        }
      }
      assert es[0].key != es[j].key;
      LookupAt(es[1..], j - 1);
    }
  }

  /**
   * Merging two maps: a key of rhs gets rhs's value merged over lhs's
   * (just rhs's when lhs lacks the key), a key only lhs has keeps lhs's
   * value, and no other key appears.
   */
  lemma MergeMaps(l: Node, r: Node, k: string)
    requires l.Map? && r.Map? && UniqueKeys(r.entries)
    ensures Lookup(r.entries, k).Some? ==> Lookup(Merge(l, r).entries, k) == Some(Merge(Get(l.entries, k), Get(r.entries, k)))
    ensures Lookup(r.entries, k).Some? && Lookup(l.entries, k).None? ==> Lookup(Merge(l, r).entries, k) == Lookup(r.entries, k)
    ensures Lookup(r.entries, k).None? ==> Lookup(Merge(l, r).entries, k) == Lookup(l.entries, k)
  {
    MergeFromLookup(l.entries, l.entries, r, 0, k);
  }

  /** The merged map's keys are the keys of both. */
  lemma MergeKeys(l: Node, r: Node, k: string)
    requires l.Map? && r.Map? && UniqueKeys(r.entries)
    ensures Lookup(Merge(l, r).entries, k).Some? <==> Lookup(l.entries, k).Some? || Lookup(r.entries, k).Some?
  {
    MergeMaps(l, r, k);
  }

  /** mergeConfig as the source runs it: the loop over rhs, recursing into nested maps. */
  method MergeConfig(l: Node, r: Node) returns (m: Node)
    ensures m == Merge(l, r)
    decreases r
  {
    if !l.Map? || !r.Map? {
      return r;
    }
    var ret := l.entries;
    var i := 0;
    while i < |r.entries|
      invariant i <= |r.entries|
      invariant MergeFrom(ret, l.entries, r, i) == MergeFrom(l.entries, l.entries, r, 0)
    {
      var e := r.entries[i];
      assert e.value < e;
      var v := e.value;
      if Lookup(ret, e.key).Some? {
        v := MergeConfig(Get(l.entries, e.key), e.value);
      }
      ret := Assign(ret, e.key, v);
      i := i + 1;
    }
    return Map(ret);
  }
}
