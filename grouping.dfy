/**
 * Keyed sums: a table column projected to (product, amount) entries, summed
 * per product. This is what the COALESCE-SUM repository queries, the stream
 * `groupingBy(..., reducing(ZERO, ..., add))` collectors and `toMap(..., add)`
 * all compute.
 */
module Grouping {
  import opened Common

  /** One row projected onto its product and the amount being summed. */
  type Entry = (ProductId, int)

  /** `reduce(ZERO, add)` over every amount. */
  function Total(es: seq<Entry>): int
  {
    if es == [] then 0 else Total(es[..|es| - 1]) + es[|es| - 1].1
  }

  /** COALESCE(SUM(amount), 0) over the entries of product `p`. */
  function SumFor(es: seq<Entry>, p: ProductId): (s: int)
    ensures (forall i :: 0 <= i < |es| ==> es[i].0 != p) ==> s == 0
  {
    if es == [] then 0
    else SumFor(es[..|es| - 1], p) + (if es[|es| - 1].0 == p then es[|es| - 1].1 else 0)
  }

  /** Group by product and add up: a key for every product that occurs, holding that product's sum. */
  function GroupSum(es: seq<Entry>): (m: map<ProductId, int>)
    ensures forall p :: p in m <==> exists i :: 0 <= i < |es| && es[i].0 == p
    ensures forall p :: p in m ==> m[p] == SumFor(es, p)
  {
    if es == [] then map[]
    else
      var m := GroupSum(es[..|es| - 1]);
      var (p, v) := es[|es| - 1];
      m[p := (if p in m then m[p] else 0) + v]
  }

  /** The products that occur, each once, in order of first occurrence. */
  function Keys(es: seq<Entry>): (ks: seq<ProductId>)
    ensures forall i, j :: 0 <= i < j < |ks| ==> ks[i] != ks[j]
    ensures forall p :: p in ks <==> exists i :: 0 <= i < |es| && es[i].0 == p
  {
    if es == [] then []
    else
      var ks := Keys(es[..|es| - 1]);
      var p := es[|es| - 1].0;
      if p in ks then ks else ks + [p]
  }

  /** The sum of a map's values at the listed keys. */
  function SumOver(ks: seq<ProductId>, m: map<ProductId, int>): int
    requires forall k :: k in ks ==> k in m
  {
    if ks == [] then 0 else SumOver(ks[..|ks| - 1], m) + m[ks[|ks| - 1]]
  }

  /** The per-product sums at the listed keys. */
  function SumGroups(ks: seq<ProductId>, es: seq<Entry>): int
  {
    if ks == [] then 0 else SumGroups(ks[..|ks| - 1], es) + SumFor(es, ks[|ks| - 1])
  }

  lemma {:induction false} SumForConcat(a: seq<Entry>, b: seq<Entry>, p: ProductId)
    ensures SumFor(a + b, p) == SumFor(a, p) + SumFor(b, p)
  {
    if b != [] {
      assert (a + b)[..|a + b| - 1] == a + b[..|b| - 1];
      SumForConcat(a, b[..|b| - 1], p);
    } else {
      assert a + b == a;
    }
  }

  /** Adding one entry adds its amount to exactly the group of its product. */
  lemma {:induction false} SumGroupsAppend(ks: seq<ProductId>, es: seq<Entry>, e: Entry)
    requires forall i, j :: 0 <= i < j < |ks| ==> ks[i] != ks[j]
    ensures SumGroups(ks, es + [e]) == SumGroups(ks, es) + (if e.0 in ks then e.1 else 0)
  {
    assert (es + [e])[..|es|] == es;
    if ks != [] {
      var init := ks[..|ks| - 1];
      SumGroupsAppend(init, es, e);
      assert ks == init + [ks[|ks| - 1]];
      assert e.0 in ks <==> e.0 in init || e.0 == ks[|ks| - 1];
      assert e.0 == ks[|ks| - 1] ==> e.0 !in init;
    }
  }

  lemma {:induction false} SumOverGroupSum(ks: seq<ProductId>, es: seq<Entry>)
    requires forall k :: k in ks ==> k in GroupSum(es)
    ensures SumOver(ks, GroupSum(es)) == SumGroups(ks, es)
  {
    if ks != [] {
      SumOverGroupSum(ks[..|ks| - 1], es);
    }
  }

  /** Every amount lands in exactly one group: the group sums add up to the total. */
  lemma {:induction false} GroupsAddUpToTotal(es: seq<Entry>)
    ensures forall k :: k in Keys(es) ==> k in GroupSum(es)
    ensures SumOver(Keys(es), GroupSum(es)) == Total(es)
  {
    GroupSumsAddUp(es);
    SumOverGroupSum(Keys(es), es);
  }

  lemma {:induction false} GroupSumsAddUp(es: seq<Entry>)
    ensures SumGroups(Keys(es), es) == Total(es)
  {
    if es != [] {
      var init, e := es[..|es| - 1], es[|es| - 1];
      assert es == init + [e];
      GroupSumsAddUp(init);
      var ks := Keys(init);
      SumGroupsAppend(ks, init, e);
      if e.0 !in ks {
        assert Keys(es) == ks + [e.0];
        assert (ks + [e.0])[..|ks|] == ks;
        assert SumFor(init, e.0) == 0;
      }
    }
  }
}
