/**
  The catalog of known checksums that both version helpers search. The C#
  dictionary is keyed by `byte[]` references, so two entries may hold the same
  bytes; it is modelled as its enumeration order, a sequence of (checksum, version)
  entries, and the search returns the first entry whose key has the same bytes.
 */
module Catalog {
  import opened DotNet

  type Catalog<V> = seq<(seq<byte>, V)>

  /** LINQ `SequenceEqual` on two byte arrays, compared element by element. */
  function SequenceEqual(a: seq<byte>, b: seq<byte>): (r: bool)
    ensures r <==> a == b
  {
    if |a| != |b| then false
    else if a == [] then true
    else a[0] == b[0] && SequenceEqual(a[1..], b[1..])
  }

  /** Position `i` holds the first key with the same bytes as `checksum`. */
  predicate IsFirstMatch<V>(catalog: Catalog<V>, checksum: seq<byte>, i: int) {
    0 <= i < |catalog| && SequenceEqual(checksum, catalog[i].0)
    && forall j :: 0 <= j < i ==> !SequenceEqual(checksum, catalog[j].0)
  }

  /**
    The version of the first catalog entry whose key has the same bytes as
    `checksum`, or `None` when no key does.
   */
  function FirstMatch<V>(catalog: Catalog<V>, checksum: seq<byte>): (r: Option<V>)
    ensures r.None? <==> forall i :: 0 <= i < |catalog| ==> !SequenceEqual(checksum, catalog[i].0)
    ensures r.Some? ==> exists i :: IsFirstMatch(catalog, checksum, i) && r.value == catalog[i].1
  {
    if catalog == [] then None
    else if SequenceEqual(checksum, catalog[0].0) then
      assert IsFirstMatch(catalog, checksum, 0);
      Some(catalog[0].1)
    else
      var r := FirstMatch(catalog[1..], checksum);
      assert r.Some? ==> exists i :: IsFirstMatch(catalog, checksum, i) && r.value == catalog[i].1 by {
        if r.Some? {
          var i :| IsFirstMatch(catalog[1..], checksum, i) && r.value == catalog[1..][i].1;
          assert IsFirstMatch(catalog, checksum, i + 1);
        }
      }
      assert r.None? ==> forall i :: 0 <= i < |catalog| ==> !SequenceEqual(checksum, catalog[i].0) by {
        if r.None? {
          forall i | 0 <= i < |catalog| ensures !SequenceEqual(checksum, catalog[i].0) {
            if i > 0 { assert catalog[i] == catalog[1..][i - 1]; }
          }
        }
      }
      r
  }

  /** Keys match exactly: the same length and the same byte at every position. */
  lemma {:induction false} SequenceEqualExact(a: seq<byte>, b: seq<byte>)
    ensures SequenceEqual(a, b) <==> |a| == |b| && forall i :: 0 <= i < |a| ==> a[i] == b[i]
  {
    if |a| == |b| && forall i :: 0 <= i < |a| ==> a[i] == b[i] {
      assert a == b;
    }
  }

  /** The scan's answer is the entry at the first matching position. */
  lemma {:induction false} FirstMatchAt<V>(catalog: Catalog<V>, checksum: seq<byte>, i: nat)
    requires i < |catalog| && catalog[i].0 == checksum
    requires forall j :: 0 <= j < i ==> catalog[j].0 != checksum
    ensures FirstMatch(catalog, checksum) == Some(catalog[i].1)
  {
    var r := FirstMatch(catalog, checksum);
    assert SequenceEqual(checksum, catalog[i].0);
    var k :| IsFirstMatch(catalog, checksum, k) && r.value == catalog[k].1;
    assert k == i;
  }

  /** Entries after a matching one are never consulted: an earlier duplicate shadows a later one. */
  lemma {:induction false} FirstMatchPrefix<V>(front: Catalog<V>, back: Catalog<V>, checksum: seq<byte>)
    requires FirstMatch(front, checksum).Some?
    ensures FirstMatch(front + back, checksum) == FirstMatch(front, checksum)
  {
    if !SequenceEqual(checksum, front[0].0) {
      FirstMatchPrefix(front[1..], back, checksum);
      assert (front + back)[1..] == front[1..] + back;
    }
  }
}
