/**
 * The callbacks of the fan service: `fan_write`, which accepts every On
 * write and every Rotation-Direction write of at most 1, and `fan_read`,
 * which toggles the Rotation-Direction value between 0 and 1 on every read.
 */
module FanService {
  import opened Hap

  /** A Rotation-Direction write the handler refuses: an integer above 1. */
  predicate Rejected(w: WriteData)
  {
    w.hc.kind == RotationDirection && w.val.IntVal? && w.val.i > 1
  }

  /**
   * The status `fan_write` gives one entry: On always succeeds, a
   * Rotation-Direction value succeeds unless it is above 1 (negative values
   * included), and every other type is "resource absent".
   */
  function FanStatus(w: WriteData): (s: HapStatus)
    ensures w.hc.kind == On ==> s == Success
    ensures w.hc.kind == RotationDirection && HasFormat(w.hc.kind, w.val) ==>
              (s == ValInvalid <==> w.val.i > 1) && (s == Success <==> w.val.i <= 1)
    ensures w.hc.kind != On && w.hc.kind != RotationDirection ==> s == ResAbsent
    ensures s == ValInvalid <==> Rejected(w)
  {
    match w.hc.kind
    case On => Success
    case RotationDirection => if Rejected(w) then ValInvalid else Success
    case _ => ResAbsent
  }

  /** The statuses of the first `n` entries, in entry order. */
  function FanStatuses(ws: seq<WriteData>, n: nat): (r: seq<HapStatus>)
    requires n <= |ws|
    ensures |r| == n
    ensures forall j :: 0 <= j < n ==> r[j] == FanStatus(ws[j])
  {
    if n == 0 then [] else FanStatuses(ws, n - 1) + [FanStatus(ws[n - 1])]
  }

  /**
   * The code `fan_write` returns after the first `n` entries: it starts at
   * `HapSuccess` and only a rejected Rotation-Direction entry sets `HapFail`.
   */
  function FanReturn(ws: seq<WriteData>, n: nat): (r: int)
    requires n <= |ws|
    ensures r == HapSuccess || r == HapFail
  {
    if n == 0 then HapSuccess
    else if Rejected(ws[n - 1]) then HapFail
    else FanReturn(ws, n - 1)
  }

  /**
   * The fan batch fails exactly when it holds a rejected Rotation-Direction
   * write; "resource absent" entries do not fail it.
   */
  lemma {:induction false} FanReturnFails(ws: seq<WriteData>, n: nat)
    requires n <= |ws|
    ensures FanReturn(ws, n) == HapFail <==> exists k :: 0 <= k < n && Rejected(ws[k])
  {
    if n > 0 {
      FanReturnFails(ws, n - 1);
    }
  }

  /**
   * Unlike the light-bulb rule, the fan's return code is not the combined
   * status of the batch: it fails only when some status is "invalid value".
   */
  lemma FanReturnIsInvalid(ws: seq<WriteData>, n: nat)
    requires n <= |ws|
    ensures FanReturn(ws, n) == HapFail <==> exists k :: 0 <= k < n && FanStatuses(ws, n)[k] == ValInvalid
  {
    FanReturnFails(ws, n);
    var sts := FanStatuses(ws, n);
    if FanReturn(ws, n) == HapFail {
      var k :| 0 <= k < n && Rejected(ws[k]);
      assert sts[k] == ValInvalid;
      assert exists k' :: 0 <= k' < n && FanStatuses(ws, n)[k'] == ValInvalid;
    } else {
      assert forall k :: 0 <= k < n ==> !Rejected(ws[k]);
      assert forall k :: 0 <= k < n ==> sts[k] != ValInvalid;
    }
  }

  /** Every cached Rotation-Direction integer is at most 1. */
  predicate DirectionsAtMostOne(m: map<Characteristic, HapVal>)
  {
    forall c :: c in m && c.kind == RotationDirection && m[c].IntVal? ==> m[c].i <= 1
  }

  /**
   * A cache that only takes Rotation-Direction values of at most 1 keeps all
   * of its Rotation-Direction values at most 1.
   */
  lemma {:induction false} StoreAfterKeepsDirections(ws: seq<WriteData>, sts: seq<HapStatus>, n: nat, m: map<Characteristic, HapVal>)
    requires n <= |ws| && n <= |sts| && DirectionsAtMostOne(m)
    requires forall k :: 0 <= k < n && sts[k] == Success ==> !Rejected(ws[k])
    ensures DirectionsAtMostOne(StoreAfter(ws, sts, n, m))
  {
    if n > 0 {
      StoreAfterKeepsDirections(ws, sts, n - 1, m);
    }
  }

  /** `fan_write` never caches a Rotation-Direction value above 1. */
  lemma FanWriteKeepsDirections(ws: seq<WriteData>, n: nat, m: map<Characteristic, HapVal>)
    requires n <= |ws| && DirectionsAtMostOne(m)
    ensures DirectionsAtMostOne(StoreAfter(ws, FanStatuses(ws, n), n, m))
  {
    StoreAfterKeepsDirections(ws, FanStatuses(ws, n), n, m);
  }

  /**
   * `fan_write`: the first `count` entries are handled in order; each gets
   * its `FanStatus`, the slots past them are untouched, the cache takes the
   * value of every successful entry, and the result is `FanReturn`.
   */
  method FanWrite(writes: seq<WriteData>, count: int, status: array<HapStatus>, store: CharStore)
    returns (ret: int)
    requires count <= |writes| == status.Length
    requires Formatted(writes, count)
    modifies status, store
    ensures forall j :: 0 <= j < Processed(count) ==> status[j] == FanStatus(writes[j])
    ensures forall j :: Processed(count) <= j < status.Length ==> status[j] == old(status[j])
    ensures store.values == StoreAfter(writes, FanStatuses(writes, Processed(count)), Processed(count), old(store.values))
    ensures ret == FanReturn(writes, Processed(count))
  {
    ghost var n := Processed(count);
    ghost var values0 := store.values;
    ret := HapSuccess;
    var i := 0;
    while i < count
      invariant 0 <= i <= n
      invariant forall j :: 0 <= j < i ==> status[j] == FanStatus(writes[j])
      invariant forall j :: i <= j < status.Length ==> status[j] == old(status[j])
      invariant store.values == StoreAfter(writes, FanStatuses(writes, i), i, values0)
      invariant ret == FanReturn(writes, i)
    {
      var w := writes[i];
      FanStep(writes, i, values0);
      if w.hc.kind == On {
        store.UpdateVal(w.hc, w.val);
        status[i] := Success;
      } else if w.hc.kind == RotationDirection {
        if w.val.i > 1 {
          status[i] := ValInvalid;
          ret := HapFail;
        } else {
          store.UpdateVal(w.hc, w.val);
          status[i] := Success;
        }
      } else {
        status[i] := ResAbsent;
      }
      i := i + 1;
    }
  }

  /** Handling entry `i` extends the cache of the entries before it by that entry alone. */
  lemma FanStep(ws: seq<WriteData>, i: nat, m: map<Characteristic, HapVal>)
    requires i < |ws|
    ensures var before, after := FanStatuses(ws, i), FanStatuses(ws, i + 1);
            && after == before + [FanStatus(ws[i])]
            && StoreAfter(ws, after, i + 1, m) ==
                 (if FanStatus(ws[i]) == Success then StoreAfter(ws, before, i, m)[ws[i].hc := ws[i].val] else StoreAfter(ws, before, i, m))
  {
    var before, after := FanStatuses(ws, i), FanStatuses(ws, i + 1);
    StoreAfterAgree(ws, before, after, i, m);
  }

  /** The Rotation-Direction value a read leaves behind: 1 becomes 0, anything else becomes 1. */
  function Toggled(cur: int32): (r: int32)
    ensures r == 0 || r == 1
    ensures r == 0 <==> cur == 1
  {
    if cur == 1 then 0 else 1
  }

  /** Two reads in a row restore a direction of 0 or 1; any other value settles at 0. */
  lemma ToggledTwice(cur: int32)
    ensures Toggled(Toggled(cur)) == if cur == 1 then 1 else 0
  {
  }

  /**
   * `fan_read`: for a Rotation-Direction characteristic the cached value is
   * toggled and the status set to `Success`; for any other characteristic
   * neither is touched. The handler always returns `HapSuccess`.
   */
  method FanRead(hc: Characteristic, status: StatusCell, store: CharStore) returns (ret: int)
    requires store.Valid()
    requires hc.kind == RotationDirection ==> hc in store.values
    modifies status, store
    ensures ret == HapSuccess
    ensures hc.kind == RotationDirection ==>
              store.values == old(store.values)[hc := IntVal(Toggled(old(store.values)[hc].i))] &&
              status.code == Success
    ensures hc.kind != RotationDirection ==> store.values == old(store.values) && status.code == old(status.code)
    ensures store.Valid()
    ensures DirectionsAtMostOne(old(store.values)) ==> DirectionsAtMostOne(store.values)
  {
    if hc.kind == RotationDirection {
      var cur := store.values[hc];
      var next: int32;
      if cur.i == 1 {
        next := 0;
      } else {
        next := 1;
      }
      store.UpdateVal(hc, IntVal(next));
      status.code := Success;
    }
    ret := HapSuccess;
  }
}
