/** Client-side validation of the pages a page channel scatters back, in any order. */
module Scatter {
  import opened Base

  const PAGE_SIZE: nat := 4096

  datatype ChannelError =
    | CardinalityMismatch(expected: nat, found: nat)
    | OutOfRangeSlot(slot: U64)
    | DuplicateSlot(slot: U64)
    | WrongLength(pageIndex: U64, length: nat)
    | HashMismatch(pageIndex: U64)
    | MissingSlot(at: nat)

  /** The slots filled after `k` faultless results: exactly the ones those results name. */
  ghost predicate Filled(slots: seq<Option<Bytes>>, results: seq<(U64, Bytes)>, k: nat)
    requires k <= |results|
  {
    && (forall j :: 0 <= j < k ==> results[j].0 < |slots| && slots[results[j].0] == Some(results[j].1))
    && (forall s :: 0 <= s < |slots| && slots[s].Some? ==> exists j :: 0 <= j < k && results[j].0 == s)
  }

  /** Pigeonhole: n pairwise distinct slots below n leave none empty. */
  lemma {:induction false} DistinctBelow(xs: set<int>, n: nat)
    requires forall x :: x in xs ==> 0 <= x < n
    ensures |xs| <= n
    ensures |xs| == n ==> forall s :: 0 <= s < n ==> s in xs
  {
    if n == 0 {
      assert forall x :: x !in xs;
    } else {
      DistinctBelow(xs - {n - 1}, n - 1);
      if n - 1 in xs {
        assert |xs - {n - 1}| == |xs| - 1;
      } else {
        assert xs - {n - 1} == xs;
      }
    }
  }

  ghost function SlotsNamed(results: seq<(U64, Bytes)>, k: nat): (s: set<int>)
    requires k <= |results|
  {
    set j | 0 <= j < k :: results[j].0
  }

  lemma OneMoreSlot(results: seq<(U64, Bytes)>, k: nat)
    requires k < |results|
    ensures SlotsNamed(results, k + 1) == SlotsNamed(results, k) + {results[k].0}
  {
  }

  lemma {:induction false} DistinctCardinality(results: seq<(U64, Bytes)>, k: nat)
    requires k <= |results|
    requires forall i, j :: 0 <= i < j < k ==> results[i].0 != results[j].0
    ensures |SlotsNamed(results, k)| == k
  {
    if k > 0 {
      DistinctCardinality(results, k - 1);
      OneMoreSlot(results, k - 1);
      assert results[k - 1].0 !in SlotsNamed(results, k - 1);
    }
  }

  /** As many distinct in-range slots as there are slots: every slot is named. */
  lemma EverySlotNamed(results: seq<(U64, Bytes)>, n: nat)
    requires |results| == n
    requires forall j :: 0 <= j < n ==> results[j].0 < n
    requires forall i, j :: 0 <= i < j < n ==> results[i].0 != results[j].0
    ensures forall s :: 0 <= s < n ==> s in SlotsNamed(results, n)
  {
    DistinctCardinality(results, n);
    DistinctBelow(SlotsNamed(results, n), n);
  }

  ghost predicate CorrectAt(blake3: Blake3, resolved: seq<(U64, Digest)>, result: (U64, Bytes)) {
    result.0 < |resolved| && |result.1| == PAGE_SIZE && blake3(result.1) == resolved[result.0].1
  }

  /** The first `k` results name distinct positions, and each is a page hashing to the hash resolved for its position. */
  ghost predicate CorrectTo(blake3: Blake3, resolved: seq<(U64, Digest)>, results: seq<(U64, Bytes)>, k: nat)
    requires k <= |results|
  {
    && (forall j :: 0 <= j < k ==> CorrectAt(blake3, resolved, results[j]))
    && (forall i, j :: 0 <= i < j < k ==> results[i].0 != results[j].0)
  }

  /** What the error says is true of result `k`, the first that is not as it should be. */
  ghost predicate Blames(blake3: Blake3, resolved: seq<(U64, Digest)>, results: seq<(U64, Bytes)>, k: nat, e: ChannelError)
    requires k < |results|
  {
    CorrectTo(blake3, resolved, results, k)
    && var slot, length := results[k].0, |results[k].1|;
       match e
       case OutOfRangeSlot(s) => s == slot >= |resolved|
       case DuplicateSlot(s) => s == slot < |resolved| && exists j :: 0 <= j < k && results[j].0 == slot
       case WrongLength(page, n) => slot < |resolved| && page == resolved[slot].0 && n == length != PAGE_SIZE
       case HashMismatch(page) =>
         slot < |resolved| && page == resolved[slot].0 && length == PAGE_SIZE && blake3(results[k].1) != resolved[slot].1
       case _ => false
  }

  lemma BlamedIsNotCorrect(blake3: Blake3, resolved: seq<(U64, Digest)>, results: seq<(U64, Bytes)>, k: nat, e: ChannelError)
    requires k < |results| && Blames(blake3, resolved, results, k, e)
    ensures !CorrectTo(blake3, resolved, results, |results|)
  {
    assert !CorrectAt(blake3, resolved, results[k]) || exists j :: 0 <= j < k && results[j].0 == results[k].0;
  }

  /** Check result `k` and put its page into its slot. */
  method Place(blake3: Blake3, resolved: seq<(U64, Digest)>, results: seq<(U64, Bytes)>, k: nat, slots: array<Option<Bytes>>)
    returns (fault: Option<ChannelError>)
    requires k < |results| && slots.Length == |resolved|
    requires CorrectTo(blake3, resolved, results, k) && Filled(slots[..], results, k)
    modifies slots
    ensures fault.None? ==> CorrectTo(blake3, resolved, results, k + 1) && Filled(slots[..], results, k + 1)
    ensures fault.Some? ==> Blames(blake3, resolved, results, k, fault.value)
  {
    var (slot, payload) := results[k];
    if slot >= |resolved| { return Some(OutOfRangeSlot(slot)); }
    assert slots[..][slot] == slots[slot];
    if slots[slot].Some? { return Some(DuplicateSlot(slot)); }
    if |payload| != PAGE_SIZE { return Some(WrongLength(resolved[slot].0, |payload|)); }
    if blake3(payload) != resolved[slot].1 { return Some(HashMismatch(resolved[slot].0)); }
    slots[slot] := Some(payload);
    return None;
  }

  /** Every slot was named, so none is missing. */
  method Collect(results: seq<(U64, Bytes)>, slots: array<Option<Bytes>>) returns (out: seq<Bytes>)
    requires slots.Length == |results| && Filled(slots[..], results, |results|)
    requires forall s :: 0 <= s < slots.Length ==> s in SlotsNamed(results, |results|)
    ensures |out| == slots.Length && forall i :: 0 <= i < |out| ==> slots[..][i] == Some(out[i])
  {
    out := [];
    for i := 0 to slots.Length
      invariant |out| == i
      invariant forall j :: 0 <= j < i ==> slots[..][j] == Some(out[j])
    {
      assert slots[..][i] == slots[i] && i in SlotsNamed(results, |results|);
      if slots[i].None? {
        assert false;  // no slot is missing
      } else {
        out := out + [slots[i].value];
      }
    }
  }

  lemma CollectedPages(blake3: Blake3, resolved: seq<(U64, Digest)>, results: seq<(U64, Bytes)>, slots: seq<Option<Bytes>>,
                       out: seq<Bytes>)
    requires |slots| == |resolved| == |results| == |out| && CorrectTo(blake3, resolved, results, |results|)
    requires Filled(slots, results, |results|) && forall i :: 0 <= i < |out| ==> slots[i] == Some(out[i])
    ensures forall i :: 0 <= i < |resolved| ==> |out[i]| == PAGE_SIZE && blake3(out[i]) == resolved[i].1
    ensures forall k :: 0 <= k < |results| ==> results[k].0 < |out| && out[results[k].0] == results[k].1
  {
    forall i | 0 <= i < |resolved|
      ensures |out[i]| == PAGE_SIZE && blake3(out[i]) == resolved[i].1
    {
      assert slots[i].Some?;
      var j :| 0 <= j < |results| && results[j].0 == i;
      assert CorrectAt(blake3, resolved, results[j]);
    }
  }

  /** Results are accepted exactly if there is one for each position, each a page hashing to the hash resolved for it,
      whatever order they came in; each page then lies at its position. Failure blames the first faulty result; a missing
      slot is never reported. */
  method AttachPayloads(blake3: Blake3, resolved: seq<(U64, Digest)>, results: seq<(U64, Bytes)>)
    returns (r: Result<seq<Bytes>, ChannelError>)
    ensures r.Ok? <==> |results| == |resolved| && CorrectTo(blake3, resolved, results, |results|)
    ensures |results| != |resolved| ==> r == Err(CardinalityMismatch(|resolved|, |results|))
    ensures r.Ok? ==>
              && |r.value| == |resolved| == |results|
              && (forall i :: 0 <= i < |resolved| ==> |r.value[i]| == PAGE_SIZE && blake3(r.value[i]) == resolved[i].1)
              && (forall k :: 0 <= k < |results| ==> results[k].0 < |r.value| && r.value[results[k].0] == results[k].1)
    ensures |results| == |resolved| && r.Err? ==>
              exists k :: 0 <= k < |results| && Blames(blake3, resolved, results, k, r.error)
    ensures r.Err? ==> !r.error.MissingSlot?
  {
    if |results| != |resolved| { return Err(CardinalityMismatch(|resolved|, |results|)); }
    var slots := new Option<Bytes>[|resolved|](_ => None);
    for k := 0 to |results|
      invariant CorrectTo(blake3, resolved, results, k) && Filled(slots[..], results, k)
    {
      var fault := Place(blake3, resolved, results, k, slots);
      if fault.Some? {
        BlamedIsNotCorrect(blake3, resolved, results, k, fault.value);
        return Err(fault.value);
      }
    }
    assert forall j :: 0 <= j < |results| ==> CorrectAt(blake3, resolved, results[j]);
    EverySlotNamed(results, |resolved|);
    var out := Collect(results, slots);
    CollectedPages(blake3, resolved, results, slots[..], out);
    return Ok(out);
  }
}
