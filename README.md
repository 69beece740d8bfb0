# brainstorm trainer, LSTM-peephole layout and layer registry in Dafny

This project models three pieces of the brainstorm neural-network library:

- **The `Trainer`** (brainstorm/training/trainer.py). It keeps:
  - an ordered table of named hooks;
  - the epoch and update counters;
  - a nested log of what the hooks report.

  Its `train` loop works like this. It starts the stepper and the hooks. It emits a baseline round of hooks. Then, epoch after epoch, it feeds the batches of the data iterator to the network and runs one update per batch. After every update it emits the update hooks, and after every epoch it logs the epoch's mean training loss and emits the epoch hooks. Any hook can stop training by raising `StopIteration`.

  The Dafny class `Training.Trainer` has the fields the source updates in place. Each of its methods is proved equal to a function of its old state:
  - `TrainerHooks` covers adding hooks, selecting and calling them, and starting them;
  - `TrainerLogs` covers `_add_log`;
  - `TrainerSpec` covers the updates, an epoch, the epoch loop and the preamble.

  Calls into the stepper, the network and the hooks are recorded in a `trace` of events. Each hook is an oracle from the epoch and update numbers to an outcome: it returns a value, stops, or raises.
- **The buffer layout and activation choice of `LstmPeepholeLayerImpl`** (brainstorm/layers/lstm_peephole.py):
  - `setup` declares one output, fifteen parameters and twenty internal buffers;
  - `set_handler` looks the activation function up by name.

  `LstmTimeSlots` models the time-slot discipline of the forward and backward passes on arrays:
  - the context slot, reached by the index `-1`, seeds step 0 of the forward pass;
  - the zeroed slot `t + 1` seeds the last step of the backward pass.
- **The automatic construction layers** (brainstorm/layers/__init__.py):
  - `construction_layer_for`;
  - the loop that fills `CONSTRUCTION_LAYERS` from the implementation classes;
  - the loop that exports the registry as module attributes;
  - `__all__`.

`setup` checks only `isinstance(size, int)` (brainstorm/layers/lstm_peephole.py:30-32). Zero, negative and boolean sizes are therefore accepted, and `LstmLayout.SetupLayout` does the same: it fails only when `size` is not an int.

## Model

| member | source | states |
|---|---|---|
| Training.Trainer.constructor | brainstorm/training/trainer.py:24-38 | a new trainer has no hooks, both counters at zero and empty logs |
| Training.Trainer.AddHook | brainstorm/training/trainer.py:40-60 | the new table and the error are exactly `AddEntry` of the old table; the keys stay unique; counters, logs and trace are unchanged |
| TrainerHooks.MaxPriority | brainstorm/training/trainer.py:60 | the maximum priority exists iff every hook has one; it bounds every priority and is attained by one |
| TrainerHooks.AppendKeepsDistinct | brainstorm/training/trainer.py:57-59 | appending a key not yet in the table keeps the keys unique |
| TrainerHooks.AddEntry | brainstorm/training/trainer.py:57-60 | the only errors are the duplicate name, which leaves the table alone, and the missing priority |
| TrainerHooks.AddEntryAppends | brainstorm/training/trainer.py:57-59 | a duplicate name raises iff it is already a key, and then changes nothing; a new name is appended last under its own name; keys stay unique |
| TrainerHooks.AddEntryMissingPriority | brainstorm/training/trainer.py:59-60 | the attribute error happens iff the name is new and some hook, the new one included, has no priority; the hook then stays inserted |
| TrainerHooks.NewPriorityIsLargest | brainstorm/training/trainer.py:60 | the priority `max + 1` exceeds every earlier priority, so increasing priorities stay increasing |
| TrainerHooks.AddEntryRunsLast | brainstorm/training/trainer.py:47-50 | a hook added without error gets a priority above every earlier one, so its order of addition is its priority order |
| Training.Trainer.StartHooks | brainstorm/training/trainer.py:110-120 | resets the logs to `training_loss: [NaN]`, records exactly the starts of `StartFrom`, and re-raises its error; the table and counters are unchanged (which hooks are started is stated by `StartFromExactly`) |
| TrainerHooks.StartFrom | brainstorm/training/trainer.py:113-120 | the start round fails iff some remaining hook's `start` raises; only start calls are recorded |
| TrainerHooks.StartFromCallsStartMethods | brainstorm/training/trainer.py:115-116 | every start recorded belongs to a hook of the table that has a `start` method |
| TrainerHooks.StartFromStopsAtFirstFailure | brainstorm/training/trainer.py:117-120 | the error re-raised is that of the first hook whose `start` raises, and that start is the last call made |
| TrainerHooks.Started | brainstorm/training/trainer.py:113-116 | with no failure, at most one start is made per hook |
| TrainerHooks.StartedConcat | brainstorm/training/trainer.py:113-116 | the starts of two tables in a row are those of the first followed by those of the second |
| TrainerHooks.StartedAt | brainstorm/training/trainer.py:113-116 | a hook with a `start` method is started after exactly the starts of the hooks ahead of it and before those behind it |
| TrainerHooks.StartedExactly | brainstorm/training/trainer.py:115-116 | a key is started iff some hook under it has a `start` method |
| TrainerHooks.FirstRaise | brainstorm/training/trainer.py:113-120 | the position of the first hook whose `start` raises, or the end of the table when none does |
| TrainerHooks.StartFromExactly | brainstorm/training/trainer.py:113-120 | the start round calls `start` on every hook that has one, in table order, up to and including the first that raises, and re-raises exactly that hook's exception; with no such hook every start is made and the round succeeds |
| Training.Trainer.EmitHooks | brainstorm/training/trainer.py:122-136 | the new logs, trace, stop flag and error equal `Emit` of the old state; the counters and table are unchanged (what is logged is stated by `EmitLogsFiredHooks`) |
| TrainerHooks.Count | brainstorm/training/trainer.py:125-126 | the counter is the epoch number on the epoch timescale and the update number on the update timescale |
| TrainerHooks.Fires | brainstorm/training/trainer.py:129-130 | a hook runs only on its own timescale, and at a positive count only once its interval has elapsed; at count 0 every hook of the timescale runs |
| TrainerHooks.Fired | brainstorm/training/trainer.py:128-130 | the selected hooks are hooks of the table whose timescale matches and whose interval divides the counter |
| TrainerHooks.FiredExactlyMatching | brainstorm/training/trainer.py:128-130 | a key is selected iff its hook matches the timescale and its interval divides the counter |
| TrainerHooks.FiredKeepsTableOrder | brainstorm/training/trainer.py:128 | the selected keys are a subsequence of the table's keys, so hooks run in table order |
| TrainerHooks.CallHook | brainstorm/training/trainer.py:138-150 | the call fails iff the hook raises; otherwise it yields the hook's value, flagged as a stop iff the hook raised `StopIteration` |
| TrainerHooks.CallInto | brainstorm/training/trainer.py:132-134 | calling one hook records the call, ORs its stop signal into the flag and raises `HookFailed` iff the hook raises; a raising hook logs nothing, otherwise its value is merged by `AddLog` under its key, and `LogMismatch` is raised iff that merge fails; every other log key is left alone |
| TrainerHooks.Emit | brainstorm/training/trainer.py:122-136 | an emission records nothing but hook calls |
| TrainerHooks.EmitFrom | brainstorm/training/trainer.py:128-136 | an emission extends the recorded events, and adds only hook calls |
| TrainerHooks.EmitFromKeepsOtherKeys | brainstorm/training/trainer.py:134 | an emission changes the log only under the keys of the table |
| TrainerHooks.EmitFromErrorNamesHook | brainstorm/training/trainer.py:138-150 | a failed emission names a hook of the table that fired, as a call failure or a log type mismatch |
| TrainerHooks.EmitFromCallsFired | brainstorm/training/trainer.py:128-132 | without an error, the events added are exactly the calls of the selected hooks in order |
| TrainerHooks.EmitFromStopsIff | brainstorm/training/trainer.py:132-136 | without an error, the stop flag is the old one OR-ed with whether a selected hook stopped |
| TrainerHooks.EmitFromLogsFired | brainstorm/training/trainer.py:128-136 | with unique keys, an emission without error has merged each fired hook's value, without error, under its key into the incoming log and left the keys of other hooks alone; a failed emission fails on a fired hook, by its call raising or by the merge of its value failing |
| TrainerHooks.EmitLogsFiredHooks | brainstorm/training/trainer.py:122-136 | the same for a whole emission: every fired hook's result is logged under its name, and every failure comes from a fired hook's call or from logging its result |
| TrainerHooks.EmitCallsFiredHooks | brainstorm/training/trainer.py:122-136 | an emission without error calls exactly the selected hooks, in table order, even after a stop, and reports stop iff one of them stopped |
| TrainerHooks.EveryOtherUpdate | brainstorm/training/trainer.py:129 | an update hook with interval 2 fires on updates 2, 4, 6, 8 and 10 of the first ten, and on no odd update |
| TrainerLogs.AddLog | brainstorm/training/trainer.py:152-172 | `None` is ignored; a scalar creates or extends its list; a dict recurses into a nested log; type clashes fail; other keys are untouched (the nested contents are stated by `DictMergesKeywise`) |
| TrainerLogs.AddLogLocal | brainstorm/training/trainer.py:152-172 | merging under a key depends only on the log's entry at that key, and changes nothing else there |
| TrainerLogs.ItemsMergeKeywise | brainstorm/training/trainer.py:165-166 | the loop over a dict's items succeeds iff each item merges on its own; then each key holds its own merge, nested dicts and `None` items included; keys of no item are untouched; a failure stops at the first failing item, keeping the earlier merges and its partial merge and leaving later keys untouched |
| TrainerLogs.DictMergesKeywise | brainstorm/training/trainer.py:160-166 | logging a dict under a name gives a nested log there, created if absent, whose keys hold exactly the item-wise merges into the old nested log, including the partial merge left by a failure |
| TrainerLogs.NoneFrom | brainstorm/training/trainer.py:165-166 | true iff every remaining item of a dict is `None` |
| TrainerLogs.FlatDictAppendsKeywise | brainstorm/training/trainer.py:165-172 | merging a flat dict of scalars with distinct keys succeeds and extends each key's list by exactly its value; other keys are untouched |
| TrainerLogs.DictOfScalarsMergesKeywise | brainstorm/training/trainer.py:160-166 | logging a dict of scalars under a name gives a nested log in which each key's list grew by its value |
| Training.Trainer.RunUpdate | brainstorm/training/trainer.py:89-93 | one update: the batch is provided, the counter advanced, the stepper and weight modifiers run and the update hooks emitted, exactly as `UpdateOnce` |
| TrainerSpec.UpdateOnce | brainstorm/training/trainer.py:89-93 | one update leaves the epoch counter alone and advances the update counter by one |
| Training.Trainer.RunUpdates | brainstorm/training/trainer.py:89-94 | the inner loop's final state, losses, break flag and error equal `UpdatesFrom` of the old state |
| TrainerSpec.UpdatesFrom | brainstorm/training/trainer.py:89-94 | the inner loop runs at most one update per batch, collects one loss per update, and uses every batch unless broken or failed |
| TrainerSpec.EpochUpdates | brainstorm/training/trainer.py:81-94 | the inner loop of an epoch runs with the epoch counter advanced by one, at most one update per batch of that epoch's iterator, and one loss per update |
| TrainerSpec.Interleave | brainstorm/training/trainer.py:194-197 | feeding `n` batches yields `2n` events |
| TrainerSpec.InterleaveAt | brainstorm/training/trainer.py:194-197 | batch `k` is handed to the net at position `2k`, and update `u + k` runs right after it |
| TrainerSpec.UpdateFeedsOnce | brainstorm/training/trainer.py:89-92 | one update feeds its batch, then steps with the new update number |
| TrainerSpec.UpdatesFeedInOrder | brainstorm/training/trainer.py:89-94 | the inner loop feeds the leading batches of the iterator in order, each followed by its step |
| TrainerSpec.UpdatesCollectLosses | brainstorm/training/trainer.py:83-91 | the losses collected are exactly those of the updates the loop ran, in order |
| TrainerSpec.UpdatesKeepOtherKeys | brainstorm/training/trainer.py:89-94 | the inner loop changes the log only under the keys of the hook table |
| TrainerSpec.EmitInto | brainstorm/training/trainer.py:122-136 | an emission keeps both counters and appends its events to the trace |
| TrainerSpec.EmitIntoFeedsNothing | brainstorm/training/trainer.py:122-136 | emitting hooks feeds no data and runs no step |
| TrainerSpec.EmitKeepsOtherKeys | brainstorm/training/trainer.py:128-134 | an emission leaves every key outside the hook table as it was |
| TrainerSpec.FlowOf | brainstorm/training/trainer.py:93-98 | an emission continues the loop iff it neither stops nor raises, and aborts iff it raises |
| Training.Trainer.RunEpoch | brainstorm/training/trainer.py:80-98 | one pass of the `while True` body gives exactly the state and flow of `EpochSpec` |
| TrainerSpec.EpochSpec | brainstorm/training/trainer.py:81-98 | an epoch counts one epoch and at most one update per batch of its iterator |
| TrainerSpec.CloseEpoch | brainstorm/training/trainer.py:96-98 | closing an epoch keeps both counters |
| TrainerSpec.CloseEpochFeedsNothing | brainstorm/training/trainer.py:96-98 | logging the loss and emitting the epoch hooks feed no data |
| TrainerSpec.EpochFeedsLeadingBatches | brainstorm/training/trainer.py:81-94 | an epoch counts exactly one epoch and one update per batch used, and feeds the leading batches of its iterator in order |
| TrainerSpec.EpochEndFeedsNothing | brainstorm/training/trainer.py:96-98 | the end of an epoch changes neither the update counter nor the data fed |
| TrainerSpec.CloseEpochLogsLoss | brainstorm/training/trainer.py:96-98 | closing an epoch appends the mean loss to `training_loss`, and the epoch hooks keep it |
| TrainerSpec.EpochLogsMeanLossOnce | brainstorm/training/trainer.py:81-98 | an epoch that gets through its updates appends to `training_loss` exactly one value: the mean of its own updates' losses |
| TrainerSpec.EpochEmissionCannotStop | brainstorm/training/trainer.py:97-98 | with epoch hooks that never stop, an epoch emission stops only together with an error |
| Training.Trainer.RunEpochs | brainstorm/training/trainer.py:80-98 | the epoch loop, bounded by `fuel`, gives exactly the state and result of `LoopSpec` |
| TrainerSpec.LoopSpec | brainstorm/training/trainer.py:80-98 | the loop runs at most `fuel` epochs, and all of them when the bound is reached; a stop comes after at least one epoch; the counters never decrease |
| TrainerSpec.LoopSpecStep | brainstorm/training/trainer.py:80-98 | continuing after an epoch is the loop from the new state; a stop or an error ends it with that epoch's state |
| TrainerSpec.OnlyEpochHooksEndTraining | brainstorm/training/trainer.py:93-98 | an update hook's stop only breaks its epoch; with epoch hooks that never stop, training never ends by a stop |
| Training.Trainer.Prepare | brainstorm/training/trainer.py:72-75 | the preamble equals `Baseline`: start the stepper and the hooks, then emit the epoch hooks and, only if they let training go on, the update hooks |
| TrainerSpec.Baseline | brainstorm/training/trainer.py:72-75 | the preamble keeps both counters |
| TrainerSpec.StartFeedsNothing | brainstorm/training/trainer.py:72-73 | starting the stepper and the hooks feeds no data |
| TrainerSpec.BaselineFeedsNothing | brainstorm/training/trainer.py:72-75 | the preamble feeds no data and runs no step |
| Training.Trainer.Train | brainstorm/training/trainer.py:62-98 | `train` gives exactly the state and result of `TrainSpec`; the hook table is unchanged |
| TrainerSpec.TrainSpec | brainstorm/training/trainer.py:66-71 | mismatched data and input names fail the assertion before anything runs; the counters never decrease |
| TrainerSpec.BaselineStopRunsNoEpoch | brainstorm/training/trainer.py:74-75 | a stop in the baseline round ends `train` with both counters unchanged and no batch fed |
| Training.Trainer.InitFromDescription | brainstorm/training/trainer.py:100-108 | the table becomes the stable priority sort of the old one with each hook named by its key; it ascends by priority and holds the same keys; an `add_hook` table keeps its order |
| Training.RenameEntries | brainstorm/training/trainer.py:106-108 | the loop copies each entry of the ordered table under its key and names the hook after it, as `Renamed` |
| TrainerHooks.InsertByPriority | brainstorm/training/trainer.py:104 | inserting one entry into the sorted tail lengthens it by one |
| TrainerHooks.InsertPermutes | brainstorm/training/trainer.py:104 | insertion adds the entry and loses nothing, also as a multiset of keys |
| TrainerHooks.InsertKeepsLowerBound | brainstorm/training/trainer.py:104 | insertion keeps a lower bound on the priorities |
| TrainerHooks.InsertKeepsAscending | brainstorm/training/trainer.py:104 | inserting into an ascending table keeps it ascending |
| TrainerHooks.PriorityOf | brainstorm/training/trainer.py:102-103 | a hook's sort key is its priority, or 0 when it has none |
| TrainerHooks.SortByPriority | brainstorm/training/trainer.py:102-104 | the sort result ascends by priority, with 0 for a missing one, and is a permutation of the table, entries and keys |
| TrainerHooks.SortKeepsAscendingTable | brainstorm/training/trainer.py:104 | a table already ascending is returned unchanged, as a stable sort does |
| TrainerHooks.IncreasingIsAscending | brainstorm/training/trainer.py:60 | a table whose priorities strictly increase, as `add_hook` builds it, is ascending |
| TrainerHooks.Renamed | brainstorm/training/trainer.py:105-108 | the rebuilt table keeps the keys in order; each hook is the old one with only its name changed, to its key |
| TrainerHooks.RestoredTableAscends | brainstorm/training/trainer.py:102-108 | the restored table ascends by priority and holds the old keys, as a multiset |
| TrainerHooks.RestoredTableKeepsOrder | brainstorm/training/trainer.py:102-108 | a table whose priorities increase, as `add_hook` builds it, keeps its key order when restored |
| TrainerHooks.RestoredTable | brainstorm/training/trainer.py:100-108 | the restored table has unique keys, the old keys, ascending priorities, and the old order for an `add_hook` table |
| TrainerHooks.SortKeepsKeysDistinct | brainstorm/training/trainer.py:104-108 | rebuilding a table with unique keys keeps them unique |
| LstmLayout.SetupLayout | brainstorm/layers/lstm_peephole.py:25-88 | setup fails iff `size` is given and not an int; otherwise the one output is `(T, B, size)` with one context slot |
| LstmLayout.SetupDefaultsToInputSize | brainstorm/layers/lstm_peephole.py:28-29 | an absent `size` is the input feature size, and then setup succeeds |
| LstmLayout.SetupParameterNames | brainstorm/layers/lstm_peephole.py:38-55 | the parameters are Wz Wi Wf Wo, Wci Wcf Wco, Rz Ri Rf Ro, bz bi bf bo, in that order |
| LstmLayout.SetupParameterShapes | brainstorm/layers/lstm_peephole.py:38-55 | there are fifteen parameters: the input weights are size × in_size, the recurrent weights size × size, and peepholes and biases are vectors of size; none has context |
| LstmLayout.ParameterCount | brainstorm/layers/lstm_peephole.py:38-55 | the parameters hold `4·size·in_size + 3·size + 4·size² + 4·size` numbers |
| LstmLayout.SetupInternals | brainstorm/layers/lstm_peephole.py:57-87 | there are twenty internals, the ten states then their ten `d` deltas; each is `(T, B, size)` with one context slot, and exactly the deltas are backward-only |
| LstmLayout.SelectActivation | brainstorm/layers/lstm_peephole.py:94-103 | the default is tanh; a name is accepted iff it is one of the four keys, and yields the activation of that name; an unknown name is the key error carrying it |
| LstmLayout.SelectByName | brainstorm/layers/lstm_peephole.py:94-100 | every activation is selected by its own name |
| LstmLayout.ActivationPairs | brainstorm/layers/lstm_peephole.py:94-100 | linear copies `x` to `y` and `dy` to `dx`; the others use the handler's function and derivative of the same name |
| LstmLayout.LstmPeepholeLayer.constructor | brainstorm/layers/lstm_peephole.py:20-23 | a layer holds its keyword arguments, with no handler or activation yet |
| LstmLayout.LstmPeepholeLayer.Setup | brainstorm/layers/lstm_peephole.py:25-32 | `setup` stores the size and the placeholder activation, and returns exactly `SetupLayout` |
| LstmLayout.LstmPeepholeLayer.SetHandler | brainstorm/layers/lstm_peephole.py:90-103 | the handler is stored, the activation becomes the selected one, and an unknown name leaves the old one |
| LstmTimeSlots.Slot | brainstorm/layers/lstm_peephole.py:132 | Python indexing: a non-negative index is itself, and `-1` is the last slot, the context |
| LstmTimeSlots.ForwardPass | brainstorm/layers/lstm_peephole.py:120-160 | step t combines its inputs with slot `t - 1`, the context slot for t = 0, which is never overwritten; the result is the forward state chain |
| LstmTimeSlots.ForwardLinkedStates | brainstorm/layers/lstm_peephole.py:130-150 | a buffer linked slot by slot to its predecessor holds the forward states seeded by the context |
| LstmTimeSlots.ForwardConsumesInputsInOrder | brainstorm/layers/lstm_peephole.py:130-160 | the state of step t is built from the inputs of steps t down to 0, on top of the context |
| LstmTimeSlots.BackwardPass | brainstorm/layers/lstm_peephole.py:182-208 | the delta buffer is zeroed, context slot included; then step t, from the last down, combines its local delta with slot `t + 1`; the result is the backward chain |
| LstmTimeSlots.BackwardLinkedStates | brainstorm/layers/lstm_peephole.py:186-208 | a buffer linked slot by slot to its successor, with a zero context slot, holds the backward deltas |
| LstmTimeSlots.BackwardConsumesDeltasInOrder | brainstorm/layers/lstm_peephole.py:183-208 | the delta of step t is built from the local deltas of steps t up to the last, on top of zero |
| LayerRegistry.DropSuffix | brainstorm/layers/__init__.py:67 | `s[:-4]` is `s` without its last four characters, or empty when `s` is shorter |
| LayerRegistry.ConstructionLayerFor | brainstorm/layers/__init__.py:63-68 | it succeeds iff the name ends in `Impl`; the factory's layer name plus `Impl` is the class name; a failure carries the class name |
| LayerRegistry.ConstructionLayerRoundTrip | brainstorm/layers/__init__.py:63-68 | the factory of `<name>Impl` creates layers called `<name>` |
| LayerRegistry.RegisterFrom | brainstorm/layers/__init__.py:71-74 | the loop adds at most one entry per class, and a failure is the assertion on one of the classes, which lacks the `Impl` suffix |
| LayerRegistry.RegisterKeepsEarlier | brainstorm/layers/__init__.py:71-74 | registration never overwrites or reorders an entry, and keeps names unique and bound to their factory |
| LayerRegistry.RegisterCoversClasses | brainstorm/layers/__init__.py:71-74 | on success every class's stripped name is registered, and nothing else is |
| LayerRegistry.RegisterFailsOnNewNonImpl | brainstorm/layers/__init__.py:71-74 | the loop fails iff some class adds a new name without the `Impl` suffix, and then on the first one |
| LayerRegistry.ExportFrom | brainstorm/layers/__init__.py:77-80 | `hasattr` guards every `setattr`, so no existing attribute is overwritten |
| LayerRegistry.ExportKeepsExisting | brainstorm/layers/__init__.py:77-80 | existing attributes are kept, every registry name becomes an attribute, and each new one is its factory |
| LayerRegistry.AllNames | brainstorm/layers/__init__.py:85 | `__all__` is `construction_layer_for` followed by exactly the registry's names |
| LayerRegistry.LayersModule.constructor | brainstorm/layers/__init__.py:22 | the registry starts empty; the attributes are those the module defines itself |
| LayerRegistry.LayersModule.RegisterLayers | brainstorm/layers/__init__.py:71-74 | the registry and the error equal `RegisterFrom` of the old registry |
| LayerRegistry.LayersModule.ExportLayers | brainstorm/layers/__init__.py:77-80 | the attributes equal `ExportFrom` of the registry and the old attributes |
| LayerRegistry.LayersModule.Import | brainstorm/layers/__init__.py:71-85 | a failed assertion stops the import after registration; otherwise it exports and sets `__all__` |

## Left out

- `run_network_double_buffer` (brainstorm/training/trainer.py:175-191) is not modelled. It fetches the next batch on a separate thread. Only `run_network` is modelled, which is the trainer with `double_buffering=False`, and threads are outside the model.
- Printing is not modelled: the `verbose` output of `train`, `_add_log` and the error messages, and `sys.stdout.flush`.
- Floating point is not modelled. Losses are integers given by a function of the update number. `np.mean` and `NaN` are opaque values (`MeanOf`, `NaN`).
- The stepper, the network, the data iterator and the hooks are external code:
  - they are recorded as events or given as oracles;
  - `hook_kwargs` are not modelled;
  - what hooks can do to the net, the stepper and the logs they receive is not modelled.
- TrainerHooks.Interval: a hook's interval is at least 1. An interval of 0 makes `count % hook.interval` at brainstorm/training/trainer.py:129 raise `ZeroDivisionError`; that error is not modelled. `Fires`, which takes the counter modulo the interval, is defined only for intervals of at least 1.
- Exceptions raised by the stepper, the network, the data iterator or `apply_weight_modifiers`, which propagate out of `train`, are not modelled. Apart from hook failures, only the name assertion at the start of `train` and a type clash while logging `training_loss` are modelled.
- Training.Trainer.Train: the `while True` loop is bounded by `maxEpochs`, and `BoundReached` reports that the bound was hit. A run that only stops after more epochs is not covered.
- The trainer's `failed_hooks` and the describable machinery are not modelled.
- Python 2 `dict` iteration order is not modelled, in a hook's returned dict or in `CONSTRUCTION_LAYERS`. Insertion order is used throughout.
- A hook's priority is `None` in the model when the attribute is missing.
- TrainerHooks.SortByPriority: stability is stated only for tables that are already ascending. It is not stated for arbitrary ties.
- The forward and backward numerics of `forward_pass` and `backward_pass` are not modelled: matrix products, gates, gradient sums and `flatten_time`. `LstmTimeSlots` models only which slot each step reads and writes, with one representative recurrent buffer per pass.
- LstmTimeSlots.BackwardPass: the deltas `dIa`, `dFa`, `dOa`, `dZa` and the state `Fb` are read at slot `t + 1` for t = T-1, which is their context slot (brainstorm/layers/lstm_peephole.py:189-196, 208). `backward_pass` zeroes only `dCa` (line 183), so what these slots hold comes from outside the method. They are not modelled: the model's one backward buffer stands for `dCa`.
- The gradient accumulation at brainstorm/layers/lstm_peephole.py:273-293 is not modelled. It uses `dy[-1]` and `dCa[-1]`, and reads `dIa[0]` twice.
- `BufferStructure` beyond its shape, context size and backward-only flag is not modelled. `expected_inputs` validation is not modelled.
- `LstmPeephole` and the explicit wrappers at brainstorm/layers/__init__.py:28-58 are factories into `ConstructionWrapper`. They are not modelled beyond being module attributes the export loop must not overwrite.
- `get_inheritors` is external code. Its result is given as the sequence of class names.
- The module variables `Layer`, `layer_name`, `name` and `cl`, which the loops leave behind, are not modelled.
