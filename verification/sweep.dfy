/** A sweep hands `PgCompareFields` one region after another; memory and the reference count
    carry over from one call to the next, and every object created is collected. */
module Sweep {
  import opened Bits
  import opened Outcomes
  import opened Block
  import opened Patch
  import opened Scan

  /** A region handed to `PgCompareFields`: its type, base address and size. */
  datatype Region = Region(kind: RegionType, base: u64, size: u64)

  /** What a sweep leaves behind: memory, the reference count, and for each region the object
      its comparison created, if any. */
  datatype Swept = Swept(mem: seq<byte>, referenceCount: nat, created: seq<Option<PgObject>>)

  /** No comparison created an object. */
  predicate NoneCreated(created: seq<Option<PgObject>>) {
    forall i {:trigger created[i]} :: 0 <= i < |created| ==> created[i].None?
  }

  /** One more comparison that created nothing keeps a sweep object-free. */
  lemma NoneCreatedCons(c: Option<PgObject>, rest: seq<Option<PgObject>>)
    ensures NoneCreated([c] + rest) ==> c.None? && NoneCreated(rest)
  {
    var created := [c] + rest;
    if NoneCreated(created) {
      assert created[0] == c;
      forall j | 0 <= j < |rest|
        ensures rest[j].None?
      {
        assert created[j + 1] == rest[j];
      }
    }
  }

  /** An object for the first region and objects describing the rest describe their regions;
      the reference count has no part in an object. */
  lemma DescribesCons(blk: PgBlock, n: nat, gs: seq<Region>, c: Option<PgObject>, rest: seq<Option<PgObject>>)
    requires |gs| > 0 && |rest| == |gs| - 1
    requires c.Some? ==> c.value == EncryptedObject(blk, gs[0].kind, gs[0].base, gs[0].size)
    requires forall i {:trigger rest[i]} :: 0 <= i < |gs[1..]| && rest[i].Some? ==>
      rest[i].value == EncryptedObject(blk.(referenceCount := n), gs[1..][i].kind, gs[1..][i].base, gs[1..][i].size)
    ensures var created := [c] + rest;
      forall i {:trigger created[i]} :: 0 <= i < |gs| && created[i].Some? ==>
        created[i].value == EncryptedObject(blk, gs[i].kind, gs[i].base, gs[i].size)
  {
    var created := [c] + rest;
    forall i | 0 <= i < |gs| && created[i].Some?
      ensures created[i].value == EncryptedObject(blk, gs[i].kind, gs[i].base, gs[i].size)
    {
      if i > 0 {
        assert created[i] == rest[i - 1] && gs[i] == gs[1..][i - 1];
      }
    }
  }

  /** `PgCompareFields` on each region in turn; None when an access faults. */
  function CompareRegions(p: Params, blk: PgBlock, mem: seq<byte>, gs: seq<Region>, jump: seq<byte>)
    : (r: Option<Swept>)
    requires p.Valid() && blk.WellFormed()
    ensures r.Some? ==> |r.value.mem| == |mem| && |r.value.created| == |gs|
    ensures r.Some? ==> forall i {:trigger r.value.created[i]} :: 0 <= i < |gs| && r.value.created[i].Some? ==>
      r.value.created[i].value == EncryptedObject(blk, gs[i].kind, gs[i].base, gs[i].size)
    ensures r.Some? && NoneCreated(r.value.created) ==>
      r.value.mem == mem && r.value.referenceCount == blk.referenceCount
    decreases |gs|
  {
    hide CompareFields, EncryptedObject, CreateObject;
    if |gs| == 0 then Some(Swept(mem, blk.referenceCount, []))
    else
      var c :- CompareFields(p, blk, mem, gs[0].kind, gs[0].base, gs[0].size, jump);
      var rest :- CompareRegions(p, blk.(referenceCount := c.referenceCount), c.mem, gs[1..], jump);
      var created := [c.created] + rest.created;
      DescribesCons(blk, c.referenceCount, gs, c.created, rest.created);
      NoneCreatedCons(c.created, rest.created);
      Some(Swept(rest.mem, rest.referenceCount, created))
  }

  /** Sweeping `gs1 + gs2` is sweeping `gs1` and then `gs2` from where the first sweep left
      memory and the reference count; a fault in either is a fault of the whole. */
  lemma {:induction false} CompareRegionsAppend(p: Params, blk: PgBlock, mem: seq<byte>, gs1: seq<Region>,
                                                gs2: seq<Region>, jump: seq<byte>)
    requires p.Valid() && blk.WellFormed()
    ensures CompareRegions(p, blk, mem, gs1, jump).None? ==> CompareRegions(p, blk, mem, gs1 + gs2, jump).None?
    ensures CompareRegions(p, blk, mem, gs1, jump).Some? ==>
      var b := CompareRegions(p, blk, mem, gs1, jump).value;
      var c := CompareRegions(p, blk.(referenceCount := b.referenceCount), b.mem, gs2, jump);
      CompareRegions(p, blk, mem, gs1 + gs2, jump)
        == if c.None? then None else Some(Swept(c.value.mem, c.value.referenceCount, b.created + c.value.created))
    decreases |gs1|
  {
    hide CompareFields, EncryptedObject, CreateObject, NoneCreated;
    if |gs1| > 0 {
      assert (gs1 + gs2)[0] == gs1[0];
      assert (gs1 + gs2)[1..] == gs1[1..] + gs2;
      var c := CompareFields(p, blk, mem, gs1[0].kind, gs1[0].base, gs1[0].size, jump);
      if c.Some? {
        var blk' := blk.(referenceCount := c.value.referenceCount);
        CompareRegionsAppend(p, blk', c.value.mem, gs1[1..], gs2, jump);
        var b' := CompareRegions(p, blk', c.value.mem, gs1[1..], jump);
        if b'.Some? {
          assert blk'.(referenceCount := b'.value.referenceCount) == blk.(referenceCount := b'.value.referenceCount);
          var d := CompareRegions(p, blk.(referenceCount := b'.value.referenceCount), b'.value.mem, gs2, jump);
          if d.Some? {
            var head: seq<Option<PgObject>> := [c.value.created];
            assert head + (b'.value.created + d.value.created) == (head + b'.value.created) + d.value.created;
          }
        }
      }
    } else {
      assert gs1 + gs2 == gs2;
      assert blk.(referenceCount := blk.referenceCount) == blk;
      var c := CompareRegions(p, blk, mem, gs2, jump);
      if c.Some? {
        assert [] + c.value.created == c.value.created;
      }
    }
  }
}
