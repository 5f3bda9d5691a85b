/** A directory of the archive: its file names in listing order (`readdir`) and
    the blob stored under each. Listing order is the order in which names were
    first written. */
module Store {
  import opened Codec

  type Blob = seq<byte>

  datatype Dir = Dir(names: seq<string>, blobs: map<string, Blob>)

  predicate Distinct(s: seq<string>) {
    forall i, j :: 0 <= i < j < |s| ==> s[i] != s[j]
  }

  /** Every stored blob is listed exactly once. */
  predicate Valid(d: Dir) {
    Distinct(d.names) && d.blobs.Keys == set n | n in d.names
  }

  const Empty: Dir := Dir([], map[])

  lemma Listed(d: Dir, k: nat)
    requires Valid(d) && k < |d.names|
    ensures d.names[k] in d.blobs
  {
  }

  /** A directory that stores nothing lists nothing. */
  lemma NothingStored(d: Dir)
    requires Valid(d) && d.blobs.Keys == {}
    ensures d == Empty
  {
    if d.names != [] {
      Listed(d, 0);
      assert false;
    }
    assert d.blobs == map[];
  }

  /** `writeFile(name, blob)`: create or replace; a new name is listed last. */
  function Write(d: Dir, name: string, blob: Blob): (r: Dir)
    requires Valid(d)
    ensures Valid(r)
    ensures r.blobs == d.blobs[name := blob]
    ensures name in d.blobs ==> r.names == d.names
    ensures name !in d.blobs ==> r.names == d.names + [name]
  {
    if name in d.blobs then Dir(d.names, d.blobs[name := blob])
    else Dir(d.names + [name], d.blobs[name := blob])
  }

  /** `s` without the members of `gone`, order kept. */
  function Without(s: seq<string>, gone: set<string>): (r: seq<string>)
    ensures forall x :: x in r <==> x in s && x !in gone
    ensures Distinct(s) ==> Distinct(r)
    ensures |r| <= |s|
  {
    if s == [] then []
    else
      var rest := Without(s[1..], gone);
      assert forall k :: 1 <= k < |s| ==> s[k] in s[1..];
      if s[0] in gone then rest else [s[0]] + rest
  }

  lemma {:induction false} WithoutUnion(s: seq<string>, a: set<string>, b: set<string>)
    ensures Without(Without(s, a), b) == Without(s, a + b)
  {
    if s != [] {
      WithoutUnion(s[1..], a, b);
      if s[0] !in a {
        assert ([s[0]] + Without(s[1..], a))[1..] == Without(s[1..], a);
      }
    }
  }

  /** `unlink` of every name in `gone`. */
  function RemoveAll(d: Dir, gone: set<string>): (r: Dir)
    requires Valid(d)
    ensures Valid(r)
    ensures r.blobs.Keys == d.blobs.Keys - gone
    ensures forall n :: n in r.blobs ==> r.blobs[n] == d.blobs[n]
  {
    Dir(Without(d.names, gone), map n | n in d.blobs && n !in gone :: d.blobs[n])
  }

  lemma RemoveAllTwice(d: Dir, a: set<string>, b: set<string>)
    requires Valid(d)
    ensures RemoveAll(RemoveAll(d, a), b) == RemoveAll(d, a + b)
  {
    WithoutUnion(d.names, a, b);
  }

  lemma {:induction false} WithoutNothing(s: seq<string>, gone: set<string>)
    requires forall x :: x in s ==> x !in gone
    ensures Without(s, gone) == s
  {
    if s != [] {
      assert forall x :: x in s[1..] ==> x in s;
      WithoutNothing(s[1..], gone);
      assert s == [s[0]] + s[1..];
    }
  }

  lemma RemoveNothing(d: Dir, gone: set<string>)
    requires Valid(d)
    requires forall n :: n in d.blobs ==> n !in gone
    ensures RemoveAll(d, gone) == d
  {
    WithoutNothing(d.names, gone);
  }
}
