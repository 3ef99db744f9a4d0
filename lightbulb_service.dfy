/**
 * The write callback of the light-bulb service (`lightbulb_write`): each
 * entry of a batch is forwarded to the matching hardware setter, and only an
 * entry the hardware accepted is echoed into the value cache.
 */
module LightbulbService {
  import opened Hap
  import opened Hardware

  /** Concatenation regroups freely; used to extend the call log one entry at a time. */
  lemma AppendAssoc<T>(a: seq<T>, b: seq<T>, c: seq<T>)
    ensures (a + b) + c == a + (b + c)
  {
  }

  /** The characteristic types the light-bulb service forwards to hardware. */
  predicate IsLightKind(kind: CharType)
  {
    kind == On || kind == Brightness || kind == Hue || kind == Saturation
  }

  /**
   * The setter call an entry triggers: one for each recognised type, carrying
   * the written value, and none for any other type.
   */
  function SetterCallFor(w: WriteData): (c: Option<SetterCall>)
    ensures HasFormat(w.hc.kind, w.val) ==> (c.Some? <==> IsLightKind(w.hc.kind))
    ensures c.Some? ==> IsLightKind(w.hc.kind) && Payload(c.value) == w.val
    ensures c.Some? ==> Target(c.value) == w.hc.kind
  {
    match (w.hc.kind, w.val)
    case (On, BoolVal(b)) => Some(SetOn(b))
    case (Brightness, IntVal(level)) => Some(SetBrightness(level))
    case (Hue, FloatVal(hue)) => Some(SetHue(hue))
    case (Saturation, FloatVal(saturation)) => Some(SetSaturation(saturation))
    case _ => None
  }

  /** The calls one entry makes: its setter call, if it has one. */
  function CallsOf(w: WriteData): (r: seq<SetterCall>)
    ensures |r| == if SetterCallFor(w).Some? then 1 else 0
  {
    match SetterCallFor(w)
    case Some(c) => [c]
    case None => []
  }

  /**
   * The status of one entry, given its setter call and that call's result:
   * a recognised entry succeeds exactly when its setter returned 0 and is
   * otherwise left at the default "invalid value"; an unrecognised entry is
   * "resource absent".
   */
  function LightStatus(call: Option<SetterCall>, reply: int): (s: HapStatus)
    ensures s == Success || s == ValInvalid || s == ResAbsent
    ensures s == Success <==> call.Some? && reply == 0
    ensures s == ResAbsent <==> call.None?
  {
    if call.None? then ResAbsent else if reply == 0 then Success else ValInvalid
  }

  /** The setter calls the first `n` entries of a batch make, in entry order. */
  function SetterCalls(ws: seq<WriteData>, n: nat): (r: seq<SetterCall>)
    requires n <= |ws|
    ensures |r| <= n
  {
    if n == 0 then [] else SetterCalls(ws, n - 1) + CallsOf(ws[n - 1])
  }

  /** The calls of a shorter prefix come first among those of a longer one. */
  lemma {:induction false} SetterCallsPrefix(ws: seq<WriteData>, n: nat, m: nat)
    requires n <= m <= |ws|
    ensures |SetterCalls(ws, n)| <= |SetterCalls(ws, m)|
    ensures SetterCalls(ws, m)[..|SetterCalls(ws, n)|] == SetterCalls(ws, n)
  {
    if n < m {
      SetterCallsPrefix(ws, n, m - 1);
      var a, b := SetterCalls(ws, n), SetterCalls(ws, m - 1);
      assert SetterCalls(ws, m) == b + CallsOf(ws[m - 1]);
      assert (b + CallsOf(ws[m - 1]))[..|a|] == b[..|a|];
    }
  }

  /**
   * Entry `i` of a recognised type makes exactly one call, carrying its
   * value, right after the calls of the entries before it; an entry of any
   * other type makes none.
   */
  lemma SetterCallAt(ws: seq<WriteData>, n: nat, i: nat)
    requires i < n <= |ws| && HasFormat(ws[i].hc.kind, ws[i].val)
    ensures IsLightKind(ws[i].hc.kind) ==>
              |SetterCalls(ws, i)| < |SetterCalls(ws, n)| &&
              Payload(SetterCalls(ws, n)[|SetterCalls(ws, i)|]) == ws[i].val &&
              Target(SetterCalls(ws, n)[|SetterCalls(ws, i)|]) == ws[i].hc.kind
    ensures IsLightKind(ws[i].hc.kind) ==> SetterCalls(ws, i + 1) == SetterCalls(ws, i) + [SetterCallFor(ws[i]).value]
    ensures !IsLightKind(ws[i].hc.kind) ==> SetterCalls(ws, i + 1) == SetterCalls(ws, i)
  {
    SetterCallsPrefix(ws, i + 1, n);
    var before := SetterCalls(ws, i);
    var through := SetterCalls(ws, i + 1);
    if IsLightKind(ws[i].hc.kind) {
      assert through == before + [SetterCallFor(ws[i]).value];
      assert SetterCalls(ws, n)[|before|] == SetterCalls(ws, n)[..|through|][|before|];
    }
  }

  /** Entries of unrecognised types leave the hardware untouched. */
  lemma {:induction false} SetterCallsNone(ws: seq<WriteData>, n: nat)
    requires n <= |ws|
    requires forall i :: 0 <= i < n ==> !IsLightKind(ws[i].hc.kind)
    ensures SetterCalls(ws, n) == []
  {
    if n > 0 {
      SetterCallsNone(ws, n - 1);
    }
  }

  /**
   * The status of entry `i` when the hardware's k-th call returns
   * `answer(k)` and `k0` calls were made before the batch: the entry's
   * setter call, if any, is answered right after the calls of the entries
   * before it.
   */
  function EntryStatus(ws: seq<WriteData>, i: nat, answer: nat -> int, k0: nat): (s: HapStatus)
    requires i < |ws|
    ensures s == Success || s == ValInvalid || s == ResAbsent
    ensures IsLightKind(ws[i].hc.kind) && HasFormat(ws[i].hc.kind, ws[i].val) ==>
              (s == Success <==> answer(k0 + |SetterCalls(ws, i)|) == 0) &&
              (s == ValInvalid <==> answer(k0 + |SetterCalls(ws, i)|) != 0)
    ensures HasFormat(ws[i].hc.kind, ws[i].val) ==> (s == ResAbsent <==> !IsLightKind(ws[i].hc.kind))
  {
    LightStatus(SetterCallFor(ws[i]), answer(k0 + |SetterCalls(ws, i)|))
  }

  /**
   * One pass of the `lightbulb_write` loop: slot `i` first gets the default
   * "invalid value"; the entry's setter, if its type has one, is called and a
   * result of 0 turns the slot into `Success`, while an unrecognised type
   * gets "resource absent" and no call. A successful entry's value is then
   * cached; any other outcome sets the return code to `HapFail`. The ghost
   * `p` and `log0` describe the earlier passes: whatever they were, this pass
   * produces exactly what `Step` adds to them.
   */
  method WriteEntry(w: WriteData, i: nat, status: array<HapStatus>, store: CharStore, bulb: Lightbulb, ret: int,
                    ghost p: LightRun, ghost log0: seq<SetterCall>)
    returns (ret': int)
    requires i < status.Length
    requires i == |p.statuses| && bulb.log == log0 + p.calls && store.values == p.values && ret == p.ret
    modifies status, store, bulb`log
    ensures var q := Step(p, w, bulb.answer, |log0|);
            status[i] == q.statuses[i] && bulb.log == log0 + q.calls && store.values == q.values && ret' == q.ret
    ensures status[i] == LightStatus(SetterCallFor(w), bulb.answer(|old(bulb.log)|))
    ensures forall j :: 0 <= j < status.Length && j != i ==> status[j] == old(status[j])
    ensures bulb.log == old(bulb.log) + CallsOf(w)
    ensures store.values == if status[i] == Success then old(store.values)[w.hc := w.val] else old(store.values)
    ensures ret' == if status[i] == Success then ret else HapFail
  {
    ret' := ret;
    // every entry starts out as an invalid value
    status[i] := ValInvalid;
    // the type tag selects lightbulb_set_on, _brightness, _hue or _saturation
    var call := SetterCallFor(w);
    if call.Some? {
      var r := bulb.Invoke(call.value);
      if r == 0 {
        status[i] := Success;
      }
    } else {
      status[i] := ResAbsent;
    }
    if status[i] == Success {
      store.UpdateVal(w.hc, w.val);
    } else {
      ret' := HapFail;
    }
    AppendAssoc(log0, p.calls, CallsOf(w));
  }

  /**
   * What the first passes of the loop have produced: the statuses written,
   * the setter calls made, the cache and the return code.
   */
  datatype LightRun = LightRun(statuses: seq<HapStatus>, calls: seq<SetterCall>, values: map<Characteristic, HapVal>, ret: int)

  /**
   * One pass of the loop on values: the entry's status is decided by its
   * setter call and the answer to it, the call is appended, a successful
   * entry is cached and any other outcome fails the batch.
   */
  function Step(p: LightRun, w: WriteData, answer: nat -> int, k0: nat): (r: LightRun)
    ensures |r.statuses| == |p.statuses| + 1
    ensures r.statuses[|p.statuses|] != Success ==> r.values == p.values && r.ret == HapFail
    ensures |r.calls| <= |p.calls| + 1
  {
    var s := LightStatus(SetterCallFor(w), answer(k0 + |p.calls|));
    LightRun(p.statuses + [s], p.calls + CallsOf(w),
             if s == Success then p.values[w.hc := w.val] else p.values,
             if s == Success then p.ret else HapFail)
  }

  /** The first `n` passes of the loop, starting from the cache `m` and `k0` earlier hardware calls. */
  function Run(ws: seq<WriteData>, n: nat, answer: nat -> int, k0: nat, m: map<Characteristic, HapVal>): (r: LightRun)
    requires n <= |ws|
    ensures |r.statuses| == n
  {
    if n == 0 then LightRun([], [], m, HapSuccess) else Step(Run(ws, n - 1, answer, k0, m), ws[n - 1], answer, k0)
  }

  /** The loop makes exactly the setter calls of the recognised entries, in entry order. */
  lemma {:induction false} RunCalls(ws: seq<WriteData>, n: nat, answer: nat -> int, k0: nat, m: map<Characteristic, HapVal>)
    requires n <= |ws|
    ensures Run(ws, n, answer, k0, m).calls == SetterCalls(ws, n)
  {
    if n > 0 {
      RunCalls(ws, n - 1, answer, k0, m);
    }
  }

  /** Each entry's status is its `EntryStatus`: it depends on that entry and the answer to its own call only. */
  lemma {:induction false} RunStatuses(ws: seq<WriteData>, n: nat, answer: nat -> int, k0: nat, m: map<Characteristic, HapVal>)
    requires n <= |ws|
    ensures forall j :: 0 <= j < n ==> Run(ws, n, answer, k0, m).statuses[j] == EntryStatus(ws, j, answer, k0)
  {
    if n > 0 {
      RunStatuses(ws, n - 1, answer, k0, m);
      RunCalls(ws, n - 1, answer, k0, m);
      var p := Run(ws, n - 1, answer, k0, m);
      var after := Run(ws, n, answer, k0, m).statuses;
      var last := LightStatus(SetterCallFor(ws[n - 1]), answer(k0 + |p.calls|));
      assert after == p.statuses + [last];
      assert last == EntryStatus(ws, n - 1, answer, k0);
      forall j | 0 <= j < n
        ensures after[j] == EntryStatus(ws, j, answer, k0)
      {
        if j < n - 1 {
          assert after[j] == p.statuses[j];
        } else {
          assert after[j] == last;
        }
      }
    }
  }

  /** The cache after the loop holds the value of every successful entry, the last one winning. */
  lemma {:induction false} RunValues(ws: seq<WriteData>, n: nat, answer: nat -> int, k0: nat, m: map<Characteristic, HapVal>)
    requires n <= |ws|
    ensures Run(ws, n, answer, k0, m).values == StoreAfter(ws, Run(ws, n, answer, k0, m).statuses, n, m)
  {
    if n > 0 {
      RunValues(ws, n - 1, answer, k0, m);
      var p := Run(ws, n - 1, answer, k0, m);
      var s := Run(ws, n, answer, k0, m).statuses[n - 1];
      assert Run(ws, n, answer, k0, m).statuses == p.statuses + [s];
      StoreAfterSnoc(ws, p.statuses, s, n - 1, m);
    }
  }

  /** The loop's return code is the combined code of the statuses it wrote. */
  lemma {:induction false} RunRet(ws: seq<WriteData>, n: nat, answer: nat -> int, k0: nat, m: map<Characteristic, HapVal>)
    requires n <= |ws|
    ensures Run(ws, n, answer, k0, m).ret == BatchReturn(Run(ws, n, answer, k0, m).statuses, n)
  {
    if n > 0 {
      RunRet(ws, n - 1, answer, k0, m);
      var p := Run(ws, n - 1, answer, k0, m);
      var s := Run(ws, n, answer, k0, m).statuses[n - 1];
      assert Run(ws, n, answer, k0, m).statuses == p.statuses + [s];
      BatchReturnSnoc(p.statuses, s);
    }
  }

  /** The batch fails exactly when some entry did not succeed; an empty batch succeeds. */
  lemma RunFails(ws: seq<WriteData>, n: nat, answer: nat -> int, k0: nat, m: map<Characteristic, HapVal>)
    requires n <= |ws|
    ensures var r := Run(ws, n, answer, k0, m);
            r.ret == HapFail <==> exists k :: 0 <= k < n && r.statuses[k] != Success
    ensures n == 0 ==> Run(ws, n, answer, k0, m).ret == HapSuccess
  {
    RunRet(ws, n, answer, k0, m);
    BatchReturnFails(Run(ws, n, answer, k0, m).statuses, n);
  }

  /**
   * What the loop leaves behind, read off any statuses that agree with the
   * ones it wrote: each entry's `EntryStatus`, the recognised entries' calls,
   * the cache of the successful entries and the combined return code.
   */
  lemma RunMeaning(ws: seq<WriteData>, n: nat, answer: nat -> int, k0: nat, m: map<Characteristic, HapVal>, sts: seq<HapStatus>)
    requires n <= |ws| && n <= |sts|
    requires forall k :: 0 <= k < n ==> sts[k] == Run(ws, n, answer, k0, m).statuses[k]
    ensures forall j :: 0 <= j < n ==> sts[j] == EntryStatus(ws, j, answer, k0)
    ensures Run(ws, n, answer, k0, m).calls == SetterCalls(ws, n)
    ensures Run(ws, n, answer, k0, m).values == StoreAfter(ws, sts, n, m)
    ensures Run(ws, n, answer, k0, m).ret == BatchReturn(sts, n)
  {
    var r := Run(ws, n, answer, k0, m);
    RunCalls(ws, n, answer, k0, m);
    RunStatuses(ws, n, answer, k0, m);
    RunValues(ws, n, answer, k0, m);
    RunRet(ws, n, answer, k0, m);
    StoreAfterAgree(ws, sts, r.statuses, n, m);
    BatchReturnAgree(sts, r.statuses, n);
  }

  /**
   * `lightbulb_write`: the first `count` entries are handled in order. Each
   * gets its `EntryStatus` for the hardware's answers, the slots past them
   * are untouched, the hardware receives exactly the calls of the recognised
   * entries, the cache takes the value of every successful entry and the
   * result is the combined code of the statuses written.
   */
  method LightbulbWrite(writes: seq<WriteData>, count: int, status: array<HapStatus>, store: CharStore, bulb: Lightbulb)
    returns (ret: int)
    requires count <= |writes| == status.Length
    requires Formatted(writes, count)
    modifies status, store, bulb`log
    ensures var r := Run(writes, Processed(count), bulb.answer, |old(bulb.log)|, old(store.values));
            && (forall j :: 0 <= j < Processed(count) ==> status[j] == r.statuses[j])
            && bulb.log == old(bulb.log) + r.calls
            && store.values == r.values
            && ret == r.ret
    ensures forall j :: 0 <= j < Processed(count) ==> status[j] == EntryStatus(writes, j, bulb.answer, |old(bulb.log)|)
    ensures forall j :: Processed(count) <= j < status.Length ==> status[j] == old(status[j])
    ensures bulb.log == old(bulb.log) + SetterCalls(writes, Processed(count))
  {
    ghost var n := Processed(count);
    ghost var log0 := bulb.log;
    ghost var values0 := store.values;
    ghost var r := Run(writes, 0, bulb.answer, |log0|, values0);
    ret := HapSuccess;
    var i := 0;
    while i < count
      invariant 0 <= i <= n
      invariant r == Run(writes, i, bulb.answer, |log0|, values0)
      invariant bulb.log == log0 + r.calls
      invariant forall j :: 0 <= j < i ==> status[j] == r.statuses[j]
      invariant forall j :: i <= j < status.Length ==> status[j] == old(status[j])
      invariant store.values == r.values
      invariant ret == r.ret
    {
      ret := WriteEntry(writes[i], i, status, store, bulb, ret, r, log0);
      r := Step(r, writes[i], bulb.answer, |log0|);
      i := i + 1;
    }
    assert i == n;
    RunStatuses(writes, n, bulb.answer, |log0|, values0);
    RunCalls(writes, n, bulb.answer, |log0|, values0);
  }
}
