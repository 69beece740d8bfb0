/**
 * Hooks of the trainer (brainstorm/training/trainer.py): the hook table,
 * the selection and calling of hooks by `_emit_hooks`/`_call_hook`, the
 * `start` round of `_start_hooks`, the priority assigned by `add_hook` and
 * the priority order restored by `__init_from_description__`.
 */
module TrainerHooks {
  import opened Wrappers
  import opened TrainerLogs

  /** A hook's interval; `count % interval` needs it positive. */
  type Interval = n: nat | n >= 1 witness 1

  /** An opaque token for one mini-batch delivered by the data iterator. */
  type Batch = int

  datatype Timescale = EpochScale | UpdateScale

  /** What calling a hook does: return a log value, raise `StopIteration`
      (carrying a final log value, possibly None), or raise anything else. */
  datatype Outcome = Returned(val: Val) | Stopped(val: Val) | Raised

  /** Whether a hook has a `start` method, and whether it raises. */
  datatype StartKind = NoStart | StartReturns | StartRaises

  /** A hook: its `__name__`, timescale, interval, optional priority, its
      `start` behaviour, and how it responds when called with the current
      epoch and update numbers (the net, stepper and logs it also receives
      are not modelled). */
  datatype Hook = Hook(name: string, timescale: Timescale, interval: Interval,
                       priority: Option<int>, start: StartKind,
                       respond: (nat, nat) -> Outcome)

  /** One entry of the `hooks` OrderedDict: its key and the hook. */
  datatype HookEntry = HookEntry(key: string, hook: Hook)

  /** Calls the trainer makes into code that is not modelled, in order. */
  datatype Event =
    | StepperStarted
    | HookStarted(key: string)
    | HookCalled(key: string, epochNr: nat, updateNr: nat)
    | Provided(batch: Batch)
    | StepRan(updateNr: nat)
    | WeightsModified

  /** The exceptions the trainer raises or lets through. */
  datatype TrainError =
    | DuplicateHook(name: string)   // ValueError in add_hook
    | MissingPriority               // AttributeError from h.priority in add_hook
    | NamesMismatch                 // AssertionError at the start of train
    | HookStartFailed(key: string)  // re-raised from a hook's start
    | HookFailed(key: string)       // re-raised from a hook call
    | LogMismatch(key: string)      // TypeError/AttributeError inside _add_log

  function Keys(hs: seq<HookEntry>): (r: seq<string>)
    ensures |r| == |hs|
    ensures forall i :: 0 <= i < |hs| ==> r[i] == hs[i].key
  {
    seq(|hs|, i requires 0 <= i < |hs| => hs[i].key)
  }

  ghost predicate Distinct(ks: seq<string>)
  {
    forall i, j :: 0 <= i < j < |ks| ==> ks[i] != ks[j]
  }

  // ---------------------------------------------------------------- add_hook

  /** `max([h.priority for h in hooks])`; None when some hook has no
      priority attribute (the AttributeError). */
  function MaxPriority(hs: seq<HookEntry>): (r: Option<int>)
    requires |hs| > 0
    ensures r.Some? <==> forall i :: 0 <= i < |hs| ==> hs[i].hook.priority.Some?
    ensures r.Some? ==> forall i :: 0 <= i < |hs| ==> hs[i].hook.priority.value <= r.value
    ensures r.Some? ==> exists i :: 0 <= i < |hs| && hs[i].hook.priority == Some(r.value)
  {
    if |hs| == 1 then hs[0].hook.priority
    else
      var rest := MaxPriority(hs[1..]);
      if hs[0].hook.priority.None? || rest.None? then None
      else if hs[0].hook.priority.value >= rest.value then hs[0].hook.priority
      else rest
  }

  /** Priorities present and strictly increasing in table order: what a
      table built only by `add_hook` satisfies. */
  ghost predicate PrioritiesIncrease(hs: seq<HookEntry>)
  {
    (forall i :: 0 <= i < |hs| ==> hs[i].hook.priority.Some?) &&
    (forall i, j :: 0 <= i < j < |hs| ==> hs[i].hook.priority.value < hs[j].hook.priority.value)
  }

  /** Appending a key not yet in the table keeps the keys unique. */
  lemma AppendKeepsDistinct(hs: seq<HookEntry>, en: HookEntry)
    requires Distinct(Keys(hs)) && en.key !in Keys(hs)
    ensures Distinct(Keys(hs + [en]))
  {
    KeysConcat(hs, [en]);
    assert Keys([en]) == [en.key];
  }

  /** The priority `add_hook` gives a new hook, one more than the maximum
      over the table with the new hook in it, exceeds every priority already
      in the table; so a table whose priorities increase keeps increasing. */
  lemma NewPriorityIsLargest(hs: seq<HookEntry>, h: Hook)
    requires MaxPriority(hs + [HookEntry(h.name, h)]).Some?
    ensures var p := MaxPriority(hs + [HookEntry(h.name, h)]).value + 1;
            (forall j :: 0 <= j < |hs| ==> hs[j].hook.priority.Some? && hs[j].hook.priority.value < p) &&
            (PrioritiesIncrease(hs) ==> PrioritiesIncrease(hs + [HookEntry(h.name, h.(priority := Some(p)))]))
  {
    var t := hs + [HookEntry(h.name, h)];
    assert forall j :: 0 <= j < |hs| ==> t[j] == hs[j];
  }

  /** `add_hook(hook)` on the table `hs`: a name already present raises;
      otherwise the hook is inserted, and then its priority is set to one
      more than the maximum over the table, its own included, which raises
      (leaving it inserted) when a hook has no priority. */
  function AddEntry(hs: seq<HookEntry>, h: Hook): (r: (seq<HookEntry>, Option<TrainError>))
    // the only two exceptions, and a duplicate leaves the table alone
    ensures r.1.Some? ==> r.1 == Some(DuplicateHook(h.name)) || r.1 == Some(MissingPriority)
    ensures r.1 == Some(DuplicateHook(h.name)) ==> r.0 == hs
  {
    if h.name in Keys(hs) then (hs, Some(DuplicateHook(h.name)))
    else
      var t := hs + [HookEntry(h.name, h)];
      match MaxPriority(t)
      case None => (t, Some(MissingPriority))
      case Some(m) => (hs + [HookEntry(h.name, h.(priority := Some(m + 1)))], None)
  }

  /** A name that is new is appended at the end, under its own name, and
      the keys stay unique; a name already present changes nothing. */
  lemma AddEntryAppends(hs: seq<HookEntry>, h: Hook)
    requires Distinct(Keys(hs))
    ensures Distinct(Keys(AddEntry(hs, h).0))
    ensures h.name in Keys(hs) <==> AddEntry(hs, h).1 == Some(DuplicateHook(h.name))
    ensures h.name in Keys(hs) ==> AddEntry(hs, h).0 == hs
    ensures h.name !in Keys(hs) ==>
              |AddEntry(hs, h).0| == |hs| + 1 && AddEntry(hs, h).0[..|hs|] == hs &&
              AddEntry(hs, h).0[|hs|].key == h.name
  {
    if h.name !in Keys(hs) {
      var t := hs + [HookEntry(h.name, h)];
      AppendKeepsDistinct(hs, HookEntry(h.name, h));
      if MaxPriority(t).Some? {
        var en := HookEntry(h.name, h.(priority := Some(MaxPriority(t).value + 1)));
        AppendKeepsDistinct(hs, en);
        assert (hs + [en])[..|hs|] == hs;
      } else {
        assert t[..|hs|] == hs;
      }
    }
  }

  /** The attribute error happens exactly when a new hook is added while
      some hook, the new one included, has no priority. */
  lemma AddEntryMissingPriority(hs: seq<HookEntry>, h: Hook)
    ensures AddEntry(hs, h).1 == Some(MissingPriority) <==>
              h.name !in Keys(hs) &&
              (h.priority.None? || exists j :: 0 <= j < |hs| && hs[j].hook.priority.None?)
  {
    if h.name !in Keys(hs) {
      var t := hs + [HookEntry(h.name, h)];
      assert t[|hs|].hook.priority == h.priority;
      assert forall j :: 0 <= j < |hs| ==> t[j] == hs[j];
    }
  }

  /** A hook added without error gets a priority larger than every priority
      in the table before it, so it runs after all of them, and a table
      whose priorities increase keeps increasing. */
  lemma AddEntryRunsLast(hs: seq<HookEntry>, h: Hook)
    requires AddEntry(hs, h).1.None?
    ensures |AddEntry(hs, h).0| == |hs| + 1 && AddEntry(hs, h).0[|hs|].hook.priority.Some?
    ensures forall j :: 0 <= j < |hs| ==>
              hs[j].hook.priority.Some? && hs[j].hook.priority.value < AddEntry(hs, h).0[|hs|].hook.priority.value
    ensures PrioritiesIncrease(hs) ==> PrioritiesIncrease(AddEntry(hs, h).0)
  {
    NewPriorityIsLargest(hs, h);
  }

  // ------------------------------------------------------ _emit_hooks, _call_hook

  /** The counter a timescale looks at. */
  function Count(ts: Timescale, epochNr: nat, updateNr: nat): (r: nat)
    ensures ts == EpochScale ==> r == epochNr
    ensures ts == UpdateScale ==> r == updateNr
  {
    if ts == EpochScale then epochNr else updateNr
  }

  /** The condition of `_emit_hooks` under which a hook is called. */
  function Fires(en: HookEntry, ts: Timescale, count: nat): (r: bool)
    // a hook is only called on its own timescale, and at a positive count
    // only once its interval has elapsed
    ensures r ==> en.hook.timescale == ts && (count == 0 || en.hook.interval <= count)
    // at count 0, as in the baseline round of `train`, every hook of the
    // timescale is called
    ensures count == 0 ==> (r <==> en.hook.timescale == ts)
  {
    en.hook.timescale == ts && count % en.hook.interval == 0
  }

  /** The hooks one emission calls, in table order. */
  function Fired(hs: seq<HookEntry>, ts: Timescale, count: nat): (r: seq<HookEntry>)
    ensures |r| <= |hs|
    ensures forall j :: 0 <= j < |r| ==> Fires(r[j], ts, count)
    ensures forall en :: en in r ==> en in hs
  {
    if hs == [] then []
    else (if Fires(hs[0], ts, count) then [hs[0]] else []) + Fired(hs[1..], ts, count)
  }

  ghost predicate IsSubsequence(a: seq<string>, b: seq<string>)
    decreases |b|
  {
    a == [] || (b != [] && ((a[0] == b[0] && IsSubsequence(a[1..], b[1..])) || IsSubsequence(a, b[1..])))
  }

  ghost predicate FiresSomewhere(hs: seq<HookEntry>, k: string, ts: Timescale, count: nat)
  {
    exists i :: 0 <= i < |hs| && hs[i].key == k && Fires(hs[i], ts, count)
  }

  lemma FiredKeysUnfold(hs: seq<HookEntry>, ts: Timescale, count: nat)
    requires hs != []
    ensures Keys(Fired(hs, ts, count))
         == (if Fires(hs[0], ts, count) then [hs[0].key] else []) + Keys(Fired(hs[1..], ts, count))
  {
    var rest := Fired(hs[1..], ts, count);
    if Fires(hs[0], ts, count) {
      assert Fired(hs, ts, count) == [hs[0]] + rest;
      KeysCons(hs[0], rest);
    } else {
      assert Fired(hs, ts, count) == rest;
    }
  }

  /** A hook is called by an emission iff its timescale matches and the
      counter is a multiple of its interval. */
  lemma {:induction false} FiredExactlyMatching(hs: seq<HookEntry>, ts: Timescale, count: nat)
    ensures forall k :: k in Keys(Fired(hs, ts, count)) <==> FiresSomewhere(hs, k, ts, count)
  {
    if hs != [] {
      FiredExactlyMatching(hs[1..], ts, count);
      FiredKeysUnfold(hs, ts, count);
      forall k ensures k in Keys(Fired(hs, ts, count)) <==> FiresSomewhere(hs, k, ts, count)
      {
        if FiresSomewhere(hs[1..], k, ts, count) {
          var i :| 0 <= i < |hs[1..]| && hs[1..][i].key == k && Fires(hs[1..][i], ts, count);
          assert hs[i + 1] == hs[1..][i];
        }
        if FiresSomewhere(hs, k, ts, count) {
          var i :| 0 <= i < |hs| && hs[i].key == k && Fires(hs[i], ts, count);
          if i > 0 {
            assert hs[1..][i - 1] == hs[i];
          }
        }
      }
    }
  }

  /** The hooks an emission calls keep the order of the table. */
  lemma {:induction false} FiredKeepsTableOrder(hs: seq<HookEntry>, ts: Timescale, count: nat)
    ensures IsSubsequence(Keys(Fired(hs, ts, count)), Keys(hs))
  {
    if hs != [] {
      FiredKeepsTableOrder(hs[1..], ts, count);
      FiredKeysUnfold(hs, ts, count);
      KeysConcat([hs[0]], hs[1..]);
      assert hs == [hs[0]] + hs[1..];
      var a := Keys(Fired(hs, ts, count));
      var rest := Keys(Fired(hs[1..], ts, count));
      assert Keys(hs)[1..] == Keys(hs[1..]);
      if Fires(hs[0], ts, count) {
        assert a[0] == Keys(hs)[0] && a[1..] == rest;
      } else {
        assert a == rest;
      }
    }
  }

  /** `_call_hook`: the log value and stop flag of a hook call, or None when
      the hook raised something other than StopIteration. */
  function CallHook(en: HookEntry, epochNr: nat, updateNr: nat): (r: Option<(Val, bool)>)
    ensures r.None? <==> en.hook.respond(epochNr, updateNr).Raised?
    ensures r.Some? ==> r.value.0 == en.hook.respond(epochNr, updateNr).val
    ensures r.Some? ==> (r.value.1 <==> en.hook.respond(epochNr, updateNr).Stopped?)
  {
    match en.hook.respond(epochNr, updateNr)
    case Returned(v) => Some((v, false))
    case Stopped(v) => Some((v, true))
    case Raised => None
  }

  /** The effect of one emission: the log, the calls made, the ORed stop
      signal, and the exception that ended it early, if any. */
  datatype Emission = Emission(log: Log, events: seq<Event>, stop: bool, err: Option<TrainError>)

  /** One call made by `_emit_hooks`: `_call_hook` on the entry, then
      `_add_log` of what it returned under the entry's key. */
  function CallInto(en: HookEntry, epochNr: nat, updateNr: nat, acc: Emission): (r: Emission)
    requires acc.err.None?
    ensures r.events == acc.events + [HookCalled(en.key, epochNr, updateNr)]
    ensures r.err.None? ==> (r.stop <==> acc.stop || en.hook.respond(epochNr, updateNr).Stopped?)
    ensures r.err.Some? ==> r.err.value == HookFailed(en.key) || r.err.value == LogMismatch(en.key)
    ensures en.hook.respond(epochNr, updateNr).Raised? <==> r.err == Some(HookFailed(en.key))
    // a hook that raises logs nothing; otherwise its value is merged by
    // `_add_log` under its key, and LogMismatch is exactly that merge failing
    ensures en.hook.respond(epochNr, updateNr).Raised? ==> r.log == acc.log
    ensures !en.hook.respond(epochNr, updateNr).Raised? ==>
              SameAt(r.log, AddLog(acc.log, en.key, en.hook.respond(epochNr, updateNr).val).log, en.key)
    ensures r.err == Some(LogMismatch(en.key)) <==>
              !en.hook.respond(epochNr, updateNr).Raised? &&
              !AddLog(acc.log, en.key, en.hook.respond(epochNr, updateNr).val).ok
    ensures forall k :: k != en.key ==> (k in r.log <==> k in acc.log)
    ensures forall k :: k != en.key && k in acc.log ==> r.log[k] == acc.log[k]
  {
    var events := acc.events + [HookCalled(en.key, epochNr, updateNr)];
    var called := CallHook(en, epochNr, updateNr);
    if called.None? then Emission(acc.log, events, false, Some(HookFailed(en.key)))
    else
      var m := AddLog(acc.log, en.key, called.value.0);
      if !m.ok then Emission(m.log, events, false, Some(LogMismatch(en.key)))
      else Emission(m.log, events, acc.stop || called.value.1, None)
  }

  /** The loop of `_emit_hooks` from table position `i`, with what the
      positions before `i` accumulated in `acc`. */
  function EmitFrom(hs: seq<HookEntry>, ts: Timescale, epochNr: nat, updateNr: nat,
                    i: nat, acc: Emission): (r: Emission)
    requires i <= |hs| && acc.err.None?
    decreases |hs| - i
    ensures |acc.events| <= |r.events| && r.events[..|acc.events|] == acc.events
    ensures forall j :: |acc.events| <= j < |r.events| ==> r.events[j].HookCalled?
  {
    if i == |hs| then acc
    else if !Fires(hs[i], ts, Count(ts, epochNr, updateNr)) then
      EmitFrom(hs, ts, epochNr, updateNr, i + 1, acc)
    else
      var a := CallInto(hs[i], epochNr, updateNr, acc);
      if a.err.Some? then a else EmitFrom(hs, ts, epochNr, updateNr, i + 1, a)
  }

  /** `_emit_hooks(net, timescale)` on a log, with the counters given. */
  function Emit(log: Log, hs: seq<HookEntry>, ts: Timescale, epochNr: nat, updateNr: nat): (r: Emission)
    ensures forall j :: 0 <= j < |r.events| ==> r.events[j].HookCalled?
  {
    EmitFrom(hs, ts, epochNr, updateNr, 0, Emission(log, [], false, None))
  }

  /** An emission changes the log only under the keys of the table. */
  lemma {:induction false} EmitFromKeepsOtherKeys(hs: seq<HookEntry>, ts: Timescale, epochNr: nat,
                                                  updateNr: nat, i: nat, acc: Emission, k: string)
    requires i <= |hs| && acc.err.None?
    requires forall j :: i <= j < |hs| ==> hs[j].key != k
    ensures var r := EmitFrom(hs, ts, epochNr, updateNr, i, acc).log;
            (k in r <==> k in acc.log) && (k in acc.log ==> r[k] == acc.log[k])
    decreases |hs| - i
  {
    if i < |hs| {
      var a := if Fires(hs[i], ts, Count(ts, epochNr, updateNr)) then CallInto(hs[i], epochNr, updateNr, acc)
               else acc;
      if a.err.None? {
        EmitFromKeepsOtherKeys(hs, ts, epochNr, updateNr, i + 1, a, k);
      }
    }
  }

  /** What an emission leaves under the key of `en`, from the log `before`:
      a hook that fires has returned, and its value is merged by `_add_log`
      without error; the key of a hook that does not fire is untouched. */
  ghost predicate LoggedUnder(r: Log, before: Log, en: HookEntry, ts: Timescale, epochNr: nat, updateNr: nat)
  {
    if Fires(en, ts, Count(ts, epochNr, updateNr)) then
      !en.hook.respond(epochNr, updateNr).Raised? &&
      AddLog(before, en.key, en.hook.respond(epochNr, updateNr).val).ok &&
      SameAt(r, AddLog(before, en.key, en.hook.respond(epochNr, updateNr).val).log, en.key)
    else
      SameAt(r, before, en.key)
  }

  /** `err` is raised by the fired hook `en`: by the call itself, or by
      `_add_log` of its value into the log `before`. */
  ghost predicate FailsWith(before: Log, en: HookEntry, ts: Timescale, epochNr: nat, updateNr: nat, err: TrainError)
  {
    Fires(en, ts, Count(ts, epochNr, updateNr)) &&
    ((en.hook.respond(epochNr, updateNr).Raised? && err == HookFailed(en.key)) ||
     (!en.hook.respond(epochNr, updateNr).Raised? &&
      !AddLog(before, en.key, en.hook.respond(epochNr, updateNr).val).ok && err == LogMismatch(en.key)))
  }

  /** Both predicates look at `before` only under the hook's key. */
  lemma LoggedUnderRebase(r: Log, a: Log, b: Log, en: HookEntry, ts: Timescale, epochNr: nat, updateNr: nat)
    requires SameAt(a, b, en.key)
    ensures LoggedUnder(r, a, en, ts, epochNr, updateNr) ==> LoggedUnder(r, b, en, ts, epochNr, updateNr)
    ensures forall err :: FailsWith(a, en, ts, epochNr, updateNr, err) ==> FailsWith(b, en, ts, epochNr, updateNr, err)
  {
    if !en.hook.respond(epochNr, updateNr).Raised? {
      AddLogLocal(a, b, en.key, en.hook.respond(epochNr, updateNr).val);
    }
  }

  /** The later hooks of a table with unique keys have other keys. */
  lemma LaterKeysDiffer(hs: seq<HookEntry>, i: nat)
    requires i < |hs| && Distinct(Keys(hs))
    ensures forall j :: i + 1 <= j < |hs| ==> hs[j].key != hs[i].key
  {
    forall j | i + 1 <= j < |hs|
      ensures hs[j].key != hs[i].key
    {
      assert Keys(hs)[i] == hs[i].key && Keys(hs)[j] == hs[j].key;
    }
  }

  /** The logging of `_emit_hooks`: in a table with unique keys, an emission
      without error has merged the value of every fired hook under its key
      and left the other hooks' keys alone; an emission that fails does so
      on a fired hook, by its call or by the merge of its value. */
  lemma {:induction false} EmitFromLogsFired(hs: seq<HookEntry>, ts: Timescale, epochNr: nat,
                                             updateNr: nat, i: nat, acc: Emission)
    requires i <= |hs| && acc.err.None? && Distinct(Keys(hs))
    ensures var r := EmitFrom(hs, ts, epochNr, updateNr, i, acc);
            r.err.None? ==> forall j :: i <= j < |hs| ==> LoggedUnder(r.log, acc.log, hs[j], ts, epochNr, updateNr)
    ensures var r := EmitFrom(hs, ts, epochNr, updateNr, i, acc);
            r.err.Some? ==> exists j :: i <= j < |hs| && FailsWith(acc.log, hs[j], ts, epochNr, updateNr, r.err.value)
    decreases |hs| - i
  {
    if i < |hs| {
      var r := EmitFrom(hs, ts, epochNr, updateNr, i, acc);
      var fires := Fires(hs[i], ts, Count(ts, epochNr, updateNr));
      var a := if fires then CallInto(hs[i], epochNr, updateNr, acc) else acc;
      if a.err.Some? {
        assert FailsWith(acc.log, hs[i], ts, epochNr, updateNr, r.err.value);
      } else {
        assert r == EmitFrom(hs, ts, epochNr, updateNr, i + 1, a);
        EmitFromLogsFired(hs, ts, epochNr, updateNr, i + 1, a);
        LaterKeysDiffer(hs, i);
        if r.err.None? {
          EmitFromKeepsOtherKeys(hs, ts, epochNr, updateNr, i + 1, a, hs[i].key);
          assert SameAt(r.log, a.log, hs[i].key);
          assert LoggedUnder(r.log, acc.log, hs[i], ts, epochNr, updateNr);
          forall j | i + 1 <= j < |hs|
            ensures LoggedUnder(r.log, acc.log, hs[j], ts, epochNr, updateNr)
          {
            assert SameAt(a.log, acc.log, hs[j].key);
            LoggedUnderRebase(r.log, a.log, acc.log, hs[j], ts, epochNr, updateNr);
          }
        } else {
          var j :| i + 1 <= j < |hs| && FailsWith(a.log, hs[j], ts, epochNr, updateNr, r.err.value);
          assert SameAt(a.log, acc.log, hs[j].key);
          LoggedUnderRebase(r.log, a.log, acc.log, hs[j], ts, epochNr, updateNr);
        }
      }
    }
  }

  /** `_emit_hooks` logs what the hooks return: with unique keys, an emission
      without error has merged each fired hook's value into the old log under
      its key, and the exception of a failed one comes from a fired hook's
      call or from the merge of its value. */
  lemma EmitLogsFiredHooks(log: Log, hs: seq<HookEntry>, ts: Timescale, epochNr: nat, updateNr: nat)
    requires Distinct(Keys(hs))
    ensures var r := Emit(log, hs, ts, epochNr, updateNr);
            r.err.None? ==> forall j :: 0 <= j < |hs| ==> LoggedUnder(r.log, log, hs[j], ts, epochNr, updateNr)
    ensures var r := Emit(log, hs, ts, epochNr, updateNr);
            r.err.Some? ==> exists j :: 0 <= j < |hs| && FailsWith(log, hs[j], ts, epochNr, updateNr, r.err.value)
  {
    EmitFromLogsFired(hs, ts, epochNr, updateNr, 0, Emission(log, [], false, None));
  }

  /** An emission that fails names a hook of the table that fired. */
  lemma {:induction false} EmitFromErrorNamesHook(hs: seq<HookEntry>, ts: Timescale, epochNr: nat,
                                                  updateNr: nat, i: nat, acc: Emission)
    requires i <= |hs| && acc.err.None?
    ensures var r := EmitFrom(hs, ts, epochNr, updateNr, i, acc);
            r.err.Some? ==> (r.err.value.HookFailed? || r.err.value.LogMismatch?) &&
                            exists j :: i <= j < |hs| && hs[j].key == r.err.value.key &&
                                        Fires(hs[j], ts, Count(ts, epochNr, updateNr))
    decreases |hs| - i
  {
    if i < |hs| {
      var a := if Fires(hs[i], ts, Count(ts, epochNr, updateNr)) then CallInto(hs[i], epochNr, updateNr, acc)
               else acc;
      if a.err.None? {
        EmitFromErrorNamesHook(hs, ts, epochNr, updateNr, i + 1, a);
      }
    }
  }

  function CallEvents(fs: seq<HookEntry>, epochNr: nat, updateNr: nat): (r: seq<Event>)
    ensures |r| == |fs|
    ensures forall j :: 0 <= j < |fs| ==> r[j] == HookCalled(fs[j].key, epochNr, updateNr)
  {
    if fs == [] then []
    else
      var rest := CallEvents(fs[1..], epochNr, updateNr);
      assert forall j :: 1 <= j < |fs| ==> rest[j - 1] == HookCalled(fs[j].key, epochNr, updateNr);
      [HookCalled(fs[0].key, epochNr, updateNr)] + rest
  }

  ghost predicate AnyStops(fs: seq<HookEntry>, epochNr: nat, updateNr: nat)
  {
    exists j :: 0 <= j < |fs| && fs[j].hook.respond(epochNr, updateNr).Stopped?
  }

  lemma FiredUnfold(hs: seq<HookEntry>, i: nat, ts: Timescale, count: nat)
    requires i < |hs|
    ensures Fired(hs[i..], ts, count)
         == (if Fires(hs[i], ts, count) then [hs[i]] else []) + Fired(hs[i + 1..], ts, count)
  {
    assert hs[i..][1..] == hs[i + 1..];
  }

  lemma CallEventsCons(en: HookEntry, rest: seq<HookEntry>, epochNr: nat, updateNr: nat)
    ensures CallEvents([en] + rest, epochNr, updateNr)
         == [HookCalled(en.key, epochNr, updateNr)] + CallEvents(rest, epochNr, updateNr)
  {
    assert ([en] + rest)[1..] == rest;
  }

  lemma AnyStopsCons(en: HookEntry, rest: seq<HookEntry>, epochNr: nat, updateNr: nat)
    ensures AnyStops([en] + rest, epochNr, updateNr)
        <==> en.hook.respond(epochNr, updateNr).Stopped? || AnyStops(rest, epochNr, updateNr)
  {
    var fs := [en] + rest;
    assert fs[0] == en;
    if AnyStops(rest, epochNr, updateNr) {
      var j :| 0 <= j < |rest| && rest[j].hook.respond(epochNr, updateNr).Stopped?;
      assert fs[j + 1] == rest[j];
    }
    if AnyStops(fs, epochNr, updateNr) && !en.hook.respond(epochNr, updateNr).Stopped? {
      var j :| 0 <= j < |fs| && fs[j].hook.respond(epochNr, updateNr).Stopped?;
      assert rest[j - 1] == fs[j];
    }
  }

  lemma {:induction false} EmitFromCallsFired(hs: seq<HookEntry>, ts: Timescale, epochNr: nat,
                                               updateNr: nat, i: nat, acc: Emission)
    requires i <= |hs| && acc.err.None?
    ensures var r := EmitFrom(hs, ts, epochNr, updateNr, i, acc);
            r.err.None? ==>
              r.events == acc.events + CallEvents(Fired(hs[i..], ts, Count(ts, epochNr, updateNr)), epochNr, updateNr)
    decreases |hs| - i
  {
    var count := Count(ts, epochNr, updateNr);
    if i == |hs| {
      assert hs[i..] == [];
    } else {
      FiredUnfold(hs, i, ts, count);
      var rest := Fired(hs[i + 1..], ts, count);
      if !Fires(hs[i], ts, count) {
        assert Fired(hs[i..], ts, count) == rest;
        EmitFromCallsFired(hs, ts, epochNr, updateNr, i + 1, acc);
      } else {
        assert Fired(hs[i..], ts, count) == [hs[i]] + rest;
        var a := CallInto(hs[i], epochNr, updateNr, acc);
        if a.err.None? {
          EmitFromCallsFired(hs, ts, epochNr, updateNr, i + 1, a);
          CallEventsCons(hs[i], rest, epochNr, updateNr);
        }
      }
    }
  }

  lemma {:induction false} EmitFromStopsIff(hs: seq<HookEntry>, ts: Timescale, epochNr: nat,
                                             updateNr: nat, i: nat, acc: Emission)
    requires i <= |hs| && acc.err.None?
    ensures var r := EmitFrom(hs, ts, epochNr, updateNr, i, acc);
            r.err.None? ==>
              (r.stop <==> acc.stop || AnyStops(Fired(hs[i..], ts, Count(ts, epochNr, updateNr)), epochNr, updateNr))
    decreases |hs| - i
  {
    var count := Count(ts, epochNr, updateNr);
    if i == |hs| {
      assert hs[i..] == [];
    } else {
      FiredUnfold(hs, i, ts, count);
      var rest := Fired(hs[i + 1..], ts, count);
      if !Fires(hs[i], ts, count) {
        assert Fired(hs[i..], ts, count) == rest;
        EmitFromStopsIff(hs, ts, epochNr, updateNr, i + 1, acc);
      } else {
        assert Fired(hs[i..], ts, count) == [hs[i]] + rest;
        var a := CallInto(hs[i], epochNr, updateNr, acc);
        if a.err.None? {
          EmitFromStopsIff(hs, ts, epochNr, updateNr, i + 1, a);
          AnyStopsCons(hs[i], rest, epochNr, updateNr);
        }
      }
    }
  }

  /** When an emission raises nothing, it has called exactly the hooks that
      fire, in table order -- also those after a hook that signalled stop --
      and it reports stop iff at least one of them raised StopIteration. */
  lemma EmitCallsFiredHooks(log: Log, hs: seq<HookEntry>, ts: Timescale, epochNr: nat, updateNr: nat)
    ensures var r := Emit(log, hs, ts, epochNr, updateNr);
            var fs := Fired(hs, ts, Count(ts, epochNr, updateNr));
            r.err.None? ==>
              r.events == CallEvents(fs, epochNr, updateNr) &&
              (r.stop <==> AnyStops(fs, epochNr, updateNr))
  {
    EmitFromCallsFired(hs, ts, epochNr, updateNr, 0, Emission(log, [], false, None));
    EmitFromStopsIff(hs, ts, epochNr, updateNr, 0, Emission(log, [], false, None));
    assert hs[0..] == hs;
  }

  /** The counters in `from .. to-1` at which a hook fires. */
  function FiringCounts(en: HookEntry, ts: Timescale, from: nat, to: nat): seq<nat>
    decreases to - from
  {
    if from >= to then []
    else (if Fires(en, ts, from) then [from] else []) + FiringCounts(en, ts, from + 1, to)
  }

  /** An update hook with interval 2 fires on updates 2, 4, 6, 8, 10 of the
      first ten, and never on odd ones. */
  lemma EveryOtherUpdate(en: HookEntry)
    requires en.hook.timescale == UpdateScale && en.hook.interval == 2
    ensures FiringCounts(en, UpdateScale, 1, 11) == [2, 4, 6, 8, 10]
    ensures forall c: nat :: Fires(en, UpdateScale, c) <==> c % 2 == 0
  {
    assert FiringCounts(en, UpdateScale, 11, 11) == [];
    assert FiringCounts(en, UpdateScale, 10, 11) == [10];
    assert FiringCounts(en, UpdateScale, 9, 11) == [10];
    assert FiringCounts(en, UpdateScale, 8, 11) == [8, 10];
    assert FiringCounts(en, UpdateScale, 7, 11) == [8, 10];
    assert FiringCounts(en, UpdateScale, 6, 11) == [6, 8, 10];
    assert FiringCounts(en, UpdateScale, 5, 11) == [6, 8, 10];
    assert FiringCounts(en, UpdateScale, 4, 11) == [4, 6, 8, 10];
    assert FiringCounts(en, UpdateScale, 3, 11) == [4, 6, 8, 10];
    assert FiringCounts(en, UpdateScale, 2, 11) == [2, 4, 6, 8, 10];
  }

  // ------------------------------------------------------------ _start_hooks

  /** The `start` loop of `_start_hooks` from table position `i`: the
      starts called, and the exception re-raised from the first one that
      fails. */
  function StartFrom(hs: seq<HookEntry>, i: nat): (r: (seq<Event>, Option<TrainError>))
    requires i <= |hs|
    decreases |hs| - i
    ensures r.1.None? <==> forall j :: i <= j < |hs| ==> hs[j].hook.start != StartRaises
    ensures forall j :: 0 <= j < |r.0| ==> r.0[j].HookStarted?
  {
    if i == |hs| then ([], None)
    else
      match hs[i].hook.start
      case NoStart => StartFrom(hs, i + 1)
      case StartReturns =>
        var rest := StartFrom(hs, i + 1);
        ([HookStarted(hs[i].key)] + rest.0, rest.1)
      case StartRaises => ([HookStarted(hs[i].key)], Some(HookStartFailed(hs[i].key)))
  }

  /** Only hooks that have a `start` method are started. */
  lemma {:induction false} StartFromCallsStartMethods(hs: seq<HookEntry>, i: nat)
    requires i <= |hs|
    ensures forall j :: 0 <= j < |StartFrom(hs, i).0| ==>
              exists k :: i <= k < |hs| && hs[k].key == StartFrom(hs, i).0[j].key && hs[k].hook.start != NoStart
    decreases |hs| - i
  {
    if i < |hs| {
      StartFromCallsStartMethods(hs, i + 1);
      var rest := StartFrom(hs, i + 1).0;
      var r := StartFrom(hs, i).0;
      forall j | 0 <= j < |StartFrom(hs, i).0|
        ensures exists k :: i <= k < |hs| && hs[k].key == StartFrom(hs, i).0[j].key && hs[k].hook.start != NoStart
      {
        if hs[i].hook.start == NoStart {
          var k :| i + 1 <= k < |hs| && hs[k].key == rest[j].key && hs[k].hook.start != NoStart;
          assert r[j] == rest[j];
        } else if j == 0 {
          assert hs[i].key == r[j].key;
        } else {
          var k :| i + 1 <= k < |hs| && hs[k].key == rest[j - 1].key && hs[k].hook.start != NoStart;
          assert r[j] == rest[j - 1];
        }
      }
    } else {
      assert StartFrom(hs, i).0 == [];
    }
  }

  /** The exception `_start_hooks` re-raises is that of the first hook whose
      `start` raises, and that start is the last one called. */
  lemma StartFromStopsAtFirstFailure(hs: seq<HookEntry>, i: nat)
    requires i <= |hs|
    ensures var r := StartFrom(hs, i);
            r.1.Some? ==>
              r.0 != [] &&
              exists k :: i <= k < |hs| && hs[k].hook.start == StartRaises &&
                          (forall j :: i <= j < k ==> hs[j].hook.start != StartRaises) &&
                          r.1 == Some(HookStartFailed(hs[k].key)) && r.0[|r.0| - 1] == HookStarted(hs[k].key)
  {
    StartFromExactly(hs, i);
    var e := FirstRaise(hs, i);
    var r := StartFrom(hs, i);
    if e < |hs| {
      assert r.0[|r.0| - 1] == HookStarted(hs[e].key);
    }
  }

  /** The starts made on `s` when no `start` raises: one for each hook that
      has a `start` method, in table order. */
  function Started(s: seq<HookEntry>): (r: seq<Event>)
    ensures |r| <= |s|
  {
    if s == [] then []
    else (if s[0].hook.start != NoStart then [HookStarted(s[0].key)] else []) + Started(s[1..])
  }

  /** The starts of two tables in a row are those of the first, then those
      of the second. */
  lemma {:induction false} StartedConcat(a: seq<HookEntry>, b: seq<HookEntry>)
    ensures Started(a + b) == Started(a) + Started(b)
  {
    if a == [] {
      assert a + b == b;
    } else {
      assert (a + b)[0] == a[0];
      assert (a + b)[1..] == a[1..] + b;
      StartedConcat(a[1..], b);
    }
  }

  /** A hook with a `start` method is started after exactly the starts of
      the hooks ahead of it, and before those of the hooks behind it. */
  lemma {:induction false} StartedAt(s: seq<HookEntry>, j: nat)
    requires j < |s| && s[j].hook.start != NoStart
    ensures Started(s) == Started(s[..j]) + [HookStarted(s[j].key)] + Started(s[j + 1..])
  {
    var tail := s[j..];
    assert tail[0] == s[j] && tail[1..] == s[j + 1..];
    assert Started(tail) == [HookStarted(s[j].key)] + Started(s[j + 1..]);
    assert s[..j] + tail == s;
    StartedConcat(s[..j], tail);
  }

  /** A key is started iff some hook under it has a `start` method. */
  lemma {:induction false} StartedExactly(s: seq<HookEntry>)
    ensures forall k :: HookStarted(k) in Started(s) <==>
              exists j :: 0 <= j < |s| && s[j].key == k && s[j].hook.start != NoStart
  {
    if s != [] {
      StartedExactly(s[1..]);
      forall k
        ensures HookStarted(k) in Started(s) <==>
                exists j :: 0 <= j < |s| && s[j].key == k && s[j].hook.start != NoStart
      {
        if exists j :: 0 <= j < |s| && s[j].key == k && s[j].hook.start != NoStart {
          var j :| 0 <= j < |s| && s[j].key == k && s[j].hook.start != NoStart;
          if j > 0 {
            assert s[1..][j - 1] == s[j];
          }
        }
        if HookStarted(k) in Started(s) && !(s[0].key == k && s[0].hook.start != NoStart) {
          assert HookStarted(k) in Started(s[1..]);
          var j :| 0 <= j < |s[1..]| && s[1..][j].key == k && s[1..][j].hook.start != NoStart;
          assert s[j + 1] == s[1..][j];
        }
      }
    }
  }

  /** The position of the first hook from `i` on whose `start` raises, or
      the end of the table. */
  function FirstRaise(hs: seq<HookEntry>, i: nat): (e: nat)
    requires i <= |hs|
    decreases |hs| - i
    ensures i <= e <= |hs|
    ensures forall j :: i <= j < e ==> hs[j].hook.start != StartRaises
    ensures e < |hs| ==> hs[e].hook.start == StartRaises
  {
    if i == |hs| || hs[i].hook.start == StartRaises then i else FirstRaise(hs, i + 1)
  }

  /** `_start_hooks` calls `start` on every hook that has one, in table
      order, up to and including the first that raises, whose exception it
      re-raises; with no such hook, it starts them all and succeeds. */
  lemma {:induction false} StartFromExactly(hs: seq<HookEntry>, i: nat)
    requires i <= |hs|
    ensures var e := FirstRaise(hs, i);
            StartFrom(hs, i).0 == Started(hs[i..e]) + (if e < |hs| then [HookStarted(hs[e].key)] else [])
    ensures var e := FirstRaise(hs, i);
            StartFrom(hs, i).1 == (if e < |hs| then Some(HookStartFailed(hs[e].key)) else None)
    decreases |hs| - i
  {
    if i < |hs| {
      var e := FirstRaise(hs, i);
      if hs[i].hook.start == StartRaises {
        assert hs[i..e] == [];
      } else {
        StartFromExactly(hs, i + 1);
        assert e == FirstRaise(hs, i + 1);
        assert hs[i..e][0] == hs[i] && hs[i..e][1..] == hs[i + 1..e];
      }
    } else {
      assert hs[i..FirstRaise(hs, i)] == [];
    }
  }

  // ---------------------------------------------- __init_from_description__

  /** `getattr(hook, 'priority', 0)`. */
  function PriorityOf(en: HookEntry): (r: int)
    ensures en.hook.priority.Some? ==> r == en.hook.priority.value
    ensures en.hook.priority.None? ==> r == 0
  {
    if en.hook.priority.Some? then en.hook.priority.value else 0
  }

  ghost predicate Ascending(hs: seq<HookEntry>)
  {
    forall i, j :: 0 <= i < j < |hs| ==> PriorityOf(hs[i]) <= PriorityOf(hs[j])
  }

  lemma KeysConcat(a: seq<HookEntry>, b: seq<HookEntry>)
    ensures Keys(a + b) == Keys(a) + Keys(b)
  {
  }

  lemma KeysCons(en: HookEntry, s: seq<HookEntry>)
    ensures Keys([en] + s) == [en.key] + Keys(s)
  {
    KeysConcat([en], s);
    assert Keys([en]) == [en.key];
  }

  /** Puts `en` in front of the first entry whose priority is not smaller
      (so `en` stays ahead of equal priorities that followed it). */
  function InsertByPriority(en: HookEntry, s: seq<HookEntry>): (r: seq<HookEntry>)
    ensures |r| == |s| + 1
  {
    if s == [] || PriorityOf(en) <= PriorityOf(s[0]) then [en] + s
    else [s[0]] + InsertByPriority(en, s[1..])
  }

  /** Inserting adds `en` and loses nothing, also seen through the keys. */
  lemma {:induction false} InsertPermutes(en: HookEntry, s: seq<HookEntry>)
    ensures multiset(InsertByPriority(en, s)) == multiset(s) + multiset{en}
    ensures multiset(Keys(InsertByPriority(en, s))) == multiset(Keys(s)) + multiset{en.key}
  {
    if s == [] || PriorityOf(en) <= PriorityOf(s[0]) {
      KeysCons(en, s);
    } else {
      InsertPermutes(en, s[1..]);
      var rest := InsertByPriority(en, s[1..]);
      assert s == [s[0]] + s[1..];
      KeysCons(s[0], s[1..]);
      KeysCons(s[0], rest);
    }
  }

  lemma {:induction false} InsertKeepsLowerBound(en: HookEntry, s: seq<HookEntry>, p: int)
    requires p <= PriorityOf(en)
    requires forall j :: 0 <= j < |s| ==> p <= PriorityOf(s[j])
    ensures forall j :: 0 <= j < |InsertByPriority(en, s)| ==> p <= PriorityOf(InsertByPriority(en, s)[j])
  {
    if s != [] && PriorityOf(en) > PriorityOf(s[0]) {
      var tail := s[1..];
      assert forall j :: 0 <= j < |tail| ==> tail[j] == s[j + 1];
      InsertKeepsLowerBound(en, tail, p);
      var rest := InsertByPriority(en, tail);
      var r := [s[0]] + rest;
      assert InsertByPriority(en, s) == r;
      forall j | 0 <= j < |r| ensures p <= PriorityOf(r[j])
      {
        if j > 0 {
          assert r[j] == rest[j - 1];
        }
      }
    }
  }

  lemma {:induction false} InsertKeepsAscending(en: HookEntry, s: seq<HookEntry>)
    requires Ascending(s)
    ensures Ascending(InsertByPriority(en, s))
  {
    if s != [] && PriorityOf(en) > PriorityOf(s[0]) {
      var tail := s[1..];
      assert forall j :: 0 <= j < |tail| ==> tail[j] == s[j + 1];
      InsertKeepsAscending(en, tail);
      InsertKeepsLowerBound(en, tail, PriorityOf(s[0]));
      var rest := InsertByPriority(en, tail);
      var r := [s[0]] + rest;
      assert InsertByPriority(en, s) == r;
      forall i, j | 0 <= i < j < |r| ensures PriorityOf(r[i]) <= PriorityOf(r[j])
      {
        assert r[j] == rest[j - 1];
        if i > 0 {
          assert r[i] == rest[i - 1];
        }
      }
    }
  }

  /** Python's stable `sorted(hooks.items(), key=get_priority)`. */
  function SortByPriority(s: seq<HookEntry>): (r: seq<HookEntry>)
    ensures |r| == |s|
    ensures Ascending(r)
    ensures multiset(r) == multiset(s)
    ensures multiset(Keys(r)) == multiset(Keys(s))
  {
    if s == [] then []
    else
      assert s == [s[0]] + s[1..];
      KeysCons(s[0], s[1..]);
      var rest := SortByPriority(s[1..]);
      InsertKeepsAscending(s[0], rest);
      InsertPermutes(s[0], rest);
      InsertByPriority(s[0], rest)
  }

  /** A table whose priorities already ascend (in particular one built by
      `add_hook`) comes back in the same order. */
  lemma {:induction false} SortKeepsAscendingTable(s: seq<HookEntry>)
    requires Ascending(s)
    ensures SortByPriority(s) == s
  {
    if s != [] {
      assert Ascending(s[1..]);
      SortKeepsAscendingTable(s[1..]);
      assert s == [s[0]] + s[1..];
    }
  }

  lemma IncreasingIsAscending(s: seq<HookEntry>)
    requires PrioritiesIncrease(s)
    ensures Ascending(s)
  {
  }

  lemma {:induction false} DistinctFromMultiset(a: seq<string>, b: seq<string>)
    requires multiset(a) == multiset(b)
    requires Distinct(b)
    ensures Distinct(a)
  {
    forall i, j | 0 <= i < j < |a| ensures a[i] != a[j]
    {
      if a[i] == a[j] {
        var x := a[i];
        assert multiset(a)[x] >= 2 by {
          assert a == a[..i] + [a[i]] + a[i + 1..];
          assert a[i + 1..] == a[i + 1..j] + [a[j]] + a[j + 1..];
          assert multiset(a) == multiset(a[..i]) + multiset{x} + multiset(a[i + 1..j]) + multiset{x} + multiset(a[j + 1..]);
        }
        CountAtMostOne(b, x);
      }
    }
  }

  lemma {:induction false} CountAtMostOne(b: seq<string>, x: string)
    requires Distinct(b)
    ensures multiset(b)[x] <= 1
  {
    if b != [] {
      assert b == [b[0]] + b[1..];
      assert Distinct(b[1..]);
      CountAtMostOne(b[1..], x);
      if b[0] == x {
        assert x !in b[1..];
        assert multiset(b[1..])[x] == 0;
      }
    }
  }

  /** The table restored in priority order, each hook renamed to its key. */
  function Renamed(s: seq<HookEntry>): (r: seq<HookEntry>)
    ensures Keys(r) == Keys(s)
    ensures forall i :: 0 <= i < |r| ==> r[i].hook.name == r[i].key
    // nothing but the name changes: priority, timescale, interval, start
    // and behaviour are the old hook's
    ensures forall i :: 0 <= i < |r| ==> r[i].key == s[i].key && r[i].hook == s[i].hook.(name := s[i].key)
  {
    seq(|s|, i requires 0 <= i < |s| => HookEntry(s[i].key, s[i].hook.(name := s[i].key)))
  }

  /** The restored table runs its hooks in ascending priority order and
      holds the same keys as before. */
  lemma RestoredTableAscends(s: seq<HookEntry>)
    ensures Ascending(Renamed(SortByPriority(s)))
    ensures multiset(Keys(Renamed(SortByPriority(s)))) == multiset(Keys(s))
  {
    var sorted := SortByPriority(s);
    var r := Renamed(sorted);
    assert forall i :: 0 <= i < |r| ==> PriorityOf(r[i]) == PriorityOf(sorted[i]);
  }

  /** A table built by `add_hook`, whose priorities increase, keeps its order
      when it is restored. */
  lemma RestoredTableKeepsOrder(s: seq<HookEntry>)
    requires PrioritiesIncrease(s)
    ensures Keys(Renamed(SortByPriority(s))) == Keys(s)
  {
    IncreasingIsAscending(s);
    SortKeepsAscendingTable(s);
  }

  /** Everything `__init_from_description__` promises of the restored table:
      unique keys, the same keys, ascending priorities, and the old order
      for a table built by `add_hook`. */
  lemma RestoredTable(s: seq<HookEntry>, t: seq<HookEntry>)
    requires Distinct(Keys(s))
    requires t == Renamed(SortByPriority(s))
    ensures Distinct(Keys(t))
    ensures Ascending(t) && multiset(Keys(t)) == multiset(Keys(s))
    ensures PrioritiesIncrease(s) ==> Keys(t) == Keys(s)
  {
    SortKeepsKeysDistinct(s);
    RestoredTableAscends(s);
    if PrioritiesIncrease(s) {
      RestoredTableKeepsOrder(s);
    }
  }

  /** Reordering by priority keeps the keys unique. */
  lemma SortKeepsKeysDistinct(s: seq<HookEntry>)
    requires Distinct(Keys(s))
    ensures Distinct(Keys(Renamed(SortByPriority(s))))
  {
    DistinctFromMultiset(Keys(SortByPriority(s)), Keys(s));
  }
}
