/**
 * The part of the HomeKit Accessory Protocol (HAP) core that the request
 * handlers of the sketch see: characteristic handles with their type tag, the
 * value union, per-request status codes, the handlers' return codes and the
 * core's cache of characteristic values.
 */
module Hap {

  /** The `int` member of the value union is a 32-bit signed integer. */
  newtype int32 = x: int | -0x8000_0000 <= x < 0x8000_0000

  /** Handler return codes of the HAP core. */
  const HapSuccess: int := 0
  const HapFail: int := -1

  datatype Option<T> = None | Some(value: T)

  /**
   * The characteristic types the handlers tell apart by their type UUID;
   * every other UUID is `Other`.
   */
  datatype CharType = On | Brightness | Hue | Saturation | RotationDirection | Other

  /** A float member of the value union, passed through untouched. */
  datatype HapFloat = HapFloat(bits: bv32)

  /** The value union: the boolean, integer or float member. */
  datatype HapVal = BoolVal(b: bool) | IntVal(i: int32) | FloatVal(f: HapFloat)

  /** A characteristic handle; its type is fixed when it is created. */
  datatype Characteristic = Characteristic(id: nat, kind: CharType)

  /** One entry of a write request: the target characteristic and the value written. */
  datatype WriteData = WriteData(hc: Characteristic, val: HapVal)

  /**
   * Per-request status codes. The handlers only ever write the first three;
   * `Preset` stands for whatever other code a slot held before.
   */
  datatype HapStatus = Success | ValInvalid | ResAbsent | Preset(code: int)

  /** The union member a characteristic of this type is carried in. */
  predicate HasFormat(kind: CharType, v: HapVal)
  {
    match kind
    case On => v.BoolVal?
    case Brightness | RotationDirection => v.IntVal?
    case Hue | Saturation => v.FloatVal?
    case Other => true
  }

  /** The first `n` entries of a batch carry their values in their characteristics' formats. */
  predicate Formatted(ws: seq<WriteData>, n: int)
  {
    forall i :: 0 <= i < n && i < |ws| ==> HasFormat(ws[i].hc.kind, ws[i].val)
  }

  /** Every cached value is in its characteristic's format. */
  predicate FormatsHold(m: map<Characteristic, HapVal>)
  {
    forall c :: c in m ==> HasFormat(c.kind, m[c])
  }

  /** Number of entries a `for (i = 0; i < count; i++)` loop visits. */
  function Processed(count: int): (n: nat)
    ensures count <= 0 ==> n == 0
    ensures count >= 0 ==> n == count
  {
    if count < 0 then 0 else count
  }

  /** The code a handler returns when each of the first `n` entries that is not a success fails it. */
  function BatchReturn(sts: seq<HapStatus>, n: nat): (r: int)
    requires n <= |sts|
    ensures r == HapSuccess || r == HapFail
  {
    if n == 0 then HapSuccess
    else if sts[n - 1] != Success then HapFail
    else BatchReturn(sts, n - 1)
  }

  /** The batch fails exactly when one of its first `n` entries did not succeed; with none it succeeds. */
  lemma {:induction false} BatchReturnFails(sts: seq<HapStatus>, n: nat)
    requires n <= |sts|
    ensures BatchReturn(sts, n) == HapFail <==> exists k :: 0 <= k < n && sts[k] != Success
  {
    if n > 0 {
      BatchReturnFails(sts, n - 1);
    }
  }

  /** The return code depends on the first `n` statuses only. */
  lemma {:induction false} BatchReturnAgree(sts: seq<HapStatus>, sts': seq<HapStatus>, n: nat)
    requires n <= |sts| && n <= |sts'|
    requires forall k :: 0 <= k < n ==> sts[k] == sts'[k]
    ensures BatchReturn(sts, n) == BatchReturn(sts', n)
  {
    if n > 0 {
      BatchReturnAgree(sts, sts', n - 1);
    }
  }

  /** Appending the status of entry `n` fails the batch unless that entry succeeded. */
  lemma BatchReturnSnoc(sts: seq<HapStatus>, x: HapStatus)
    ensures BatchReturn(sts + [x], |sts| + 1) == if x == Success then BatchReturn(sts, |sts|) else HapFail
  {
    BatchReturnAgree(sts, sts + [x], |sts|);
  }

  /**
   * The value cache after the first `n` entries of a batch: walking them in
   * order, an entry whose status is `Success` stores its value; the others
   * leave the cache alone.
   */
  function StoreAfter(ws: seq<WriteData>, sts: seq<HapStatus>, n: nat, m: map<Characteristic, HapVal>): (r: map<Characteristic, HapVal>)
    requires n <= |ws| && n <= |sts|
    ensures m.Keys <= r.Keys
  {
    if n == 0 then m
    else
      var before := StoreAfter(ws, sts, n - 1, m);
      if sts[n - 1] == Success then before[ws[n - 1].hc := ws[n - 1].val] else before
  }

  /** The cache after `n` entries depends on the first `n` statuses only. */
  lemma {:induction false} StoreAfterAgree(ws: seq<WriteData>, sts: seq<HapStatus>, sts': seq<HapStatus>, n: nat, m: map<Characteristic, HapVal>)
    requires n <= |ws| && n <= |sts| && n <= |sts'|
    requires forall k :: 0 <= k < n ==> sts[k] == sts'[k]
    ensures StoreAfter(ws, sts, n, m) == StoreAfter(ws, sts', n, m)
  {
    if n > 0 {
      StoreAfterAgree(ws, sts, sts', n - 1, m);
    }
  }

  /** Appending the status of entry `n` extends the cache by that entry alone. */
  lemma StoreAfterSnoc(ws: seq<WriteData>, sts: seq<HapStatus>, x: HapStatus, n: nat, m: map<Characteristic, HapVal>)
    requires n < |ws| && |sts| == n
    ensures StoreAfter(ws, sts + [x], n + 1, m) ==
              if x == Success then StoreAfter(ws, sts, n, m)[ws[n].hc := ws[n].val] else StoreAfter(ws, sts, n, m)
  {
    StoreAfterAgree(ws, sts, sts + [x], n, m);
  }

  /** A characteristic that no successful entry targets keeps its cached value (or its absence). */
  lemma {:induction false} StoreAfterUntouched(ws: seq<WriteData>, sts: seq<HapStatus>, n: nat, m: map<Characteristic, HapVal>, c: Characteristic)
    requires n <= |ws| && n <= |sts|
    requires forall i :: 0 <= i < n && ws[i].hc == c ==> sts[i] != Success
    ensures c in StoreAfter(ws, sts, n, m) <==> c in m
    ensures c in m ==> StoreAfter(ws, sts, n, m)[c] == m[c]
  {
    if n > 0 {
      StoreAfterUntouched(ws, sts, n - 1, m, c);
    }
  }

  /** The last successful entry for a characteristic decides its cached value. */
  lemma {:induction false} StoreAfterLastWins(ws: seq<WriteData>, sts: seq<HapStatus>, n: nat, m: map<Characteristic, HapVal>, i: nat)
    requires n <= |ws| && n <= |sts| && i < n && sts[i] == Success
    requires forall j :: i < j < n && ws[j].hc == ws[i].hc ==> sts[j] != Success
    ensures ws[i].hc in StoreAfter(ws, sts, n, m)
    ensures StoreAfter(ws, sts, n, m)[ws[i].hc] == ws[i].val
  {
    if i < n - 1 {
      StoreAfterLastWins(ws, sts, n - 1, m, i);
    }
  }

  /** Well-formatted entries keep every cached value in its characteristic's format. */
  lemma {:induction false} StoreAfterFormats(ws: seq<WriteData>, sts: seq<HapStatus>, n: nat, m: map<Characteristic, HapVal>)
    requires n <= |ws| && n <= |sts| && Formatted(ws, n) && FormatsHold(m)
    ensures FormatsHold(StoreAfter(ws, sts, n, m))
  {
    if n > 0 {
      StoreAfterFormats(ws, sts, n - 1, m);
    }
  }

  /** The core's cache of characteristic values. */
  class CharStore {
    var values: map<Characteristic, HapVal>

    ghost predicate Valid()
      reads this
    {
      FormatsHold(values)
    }

    constructor (initial: map<Characteristic, HapVal>)
      requires FormatsHold(initial)
      ensures values == initial
      ensures Valid()
    {
      values := initial;
    }

    /** `hap_char_update_val`: the characteristic now holds `v`; nothing else changes. */
    method UpdateVal(hc: Characteristic, v: HapVal)
      modifies this
      ensures values == old(values)[hc := v]
      ensures old(Valid()) && HasFormat(hc.kind, v) ==> Valid()
    {
      values := values[hc := v];
    }
  }

  /** A single status slot a handler writes through (`hap_status_t *`). */
  class StatusCell {
    var code: HapStatus

    constructor (code: HapStatus)
      ensures this.code == code
    {
      this.code := code;
    }
  }
}
