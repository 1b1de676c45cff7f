/** The attribute dictionary that networkx keeps for every node and edge.
    A Python dict keeps its keys in insertion order, so it is modelled as a
    sequence of (name, value) pairs; values are shown through `str`, so they
    are modelled by their string form. */
module Attributes {

  type Attr = (string, string)
  type Attrs = seq<Attr>

  /** The keys of a Python dict are distinct. */
  ghost predicate DistinctNames(attrs: Attrs) {
    forall i, j :: 0 <= i < j < |attrs| ==> attrs[i].0 != attrs[j].0
  }

  /** `k in attrs` */
  predicate HasKey(attrs: Attrs, k: string) {
    exists i :: 0 <= i < |attrs| && attrs[i].0 == k
  }

  /** The position of the first entry named `k`. */
  function IndexOf(attrs: Attrs, k: string): (i: nat)
    requires HasKey(attrs, k)
    ensures i < |attrs| && attrs[i].0 == k
    ensures forall j :: 0 <= j < i ==> attrs[j].0 != k
  {
    if attrs[0].0 == k then 0
    else
      assert HasKey(attrs[1..], k) by {
        var i :| 0 <= i < |attrs| && attrs[i].0 == k;
        assert attrs[1..][i - 1].0 == k;
      }
      1 + IndexOf(attrs[1..], k)
  }

  /** `attrs[k]` */
  function Get(attrs: Attrs, k: string): string
    requires HasKey(attrs, k)
  {
    attrs[IndexOf(attrs, k)].1
  }

  /** `attrs[k] = v` on a dict: an existing key keeps its position and takes
      the new value, a new key goes to the end. */
  function Put(attrs: Attrs, k: string, v: string): (r: Attrs)
    ensures HasKey(attrs, k) ==> |r| == |attrs| && forall i :: 0 <= i < |r| ==> r[i].0 == attrs[i].0
    ensures !HasKey(attrs, k) ==> r == attrs + [(k, v)]
  {
    if HasKey(attrs, k) then attrs[IndexOf(attrs, k) := (k, v)] else attrs + [(k, v)]
  }

  /** After `attrs[k] = v`, the key is present and reads back as `v`. */
  lemma PutGet(attrs: Attrs, k: string, v: string)
    ensures HasKey(Put(attrs, k, v), k) && Get(Put(attrs, k, v), k) == v
  {
    var r := Put(attrs, k, v);
    var i := if HasKey(attrs, k) then IndexOf(attrs, k) else |attrs|;
    assert r[i] == (k, v);
    assert HasKey(r, k);
    assert forall j :: 0 <= j < i ==> r[j].0 != k;
    assert IndexOf(r, k) == i;
  }

  /** Writing `k` leaves every other key, and its value, as it was. */
  lemma PutOther(attrs: Attrs, k: string, v: string, k': string)
    requires k' != k
    ensures HasKey(Put(attrs, k, v), k') <==> HasKey(attrs, k')
    ensures HasKey(attrs, k') ==> Get(Put(attrs, k, v), k') == Get(attrs, k')
  {
    var r := Put(attrs, k, v);
    if HasKey(attrs, k') {
      var i := IndexOf(attrs, k');
      assert r[i] == attrs[i];
      assert IndexOf(r, k') == i;
    }
    if HasKey(r, k') {
      var i := IndexOf(r, k');
      assert attrs[i] == r[i];
    }
  }

  /** Writing a key keeps the keys of a dict distinct. */
  lemma PutKeepsDistinct(attrs: Attrs, k: string, v: string)
    requires DistinctNames(attrs)
    ensures DistinctNames(Put(attrs, k, v))
  {
    var r := Put(attrs, k, v);
    if !HasKey(attrs, k) {
      forall i, j | 0 <= i < j < |r| ensures r[i].0 != r[j].0 {
        if j == |attrs| {
          assert r[i] == attrs[i];
        }
      }
    }
  }

  /** `{k: v for k, v in attrs.items() if k in keys}` */
  function Restrict(attrs: Attrs, keys: seq<string>): (m: map<string, string>)
    ensures forall k :: k in m <==> k in keys && HasKey(attrs, k)
  {
    map k | k in keys && HasKey(attrs, k) :: Get(attrs, k)
  }

  /** Writing a key outside `keys` does not change the restriction to `keys`. */
  lemma PutOutsideRestrict(attrs: Attrs, keys: seq<string>, k: string, v: string)
    requires k !in keys
    ensures Restrict(Put(attrs, k, v), keys) == Restrict(attrs, keys)
  {
    forall k' | k' in keys
      ensures HasKey(Put(attrs, k, v), k') <==> HasKey(attrs, k')
      ensures HasKey(attrs, k') ==> Get(Put(attrs, k, v), k') == Get(attrs, k')
    {
      PutOther(attrs, k, v, k');
    }
  }
}
