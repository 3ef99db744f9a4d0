# HomeKit light-bulb and fan request handlers

This project models the request handlers of an ESP32 HomeKit accessory
sketch, written against a HomeKit Accessory Protocol (HAP) SDK:

- `lightbulb_write` is the batch write callback of the light-bulb service.
  Each entry of a write request first gets the default status "invalid
  value". Its characteristic type then selects one of the hardware setters:
  On, Brightness, Hue or Saturation. A setter result of 0 makes the entry
  `SUCCESS`. An unrecognised type gets "resource absent" and no setter
  call. Only a successful entry's value is written back into the SDK's
  value cache. Any other outcome makes the handler return `HAP_FAIL`.
- `fan_write` is the fan service's batch write callback:
  - On is always accepted and cached.
  - A Rotation-Direction value above 1 is "invalid value" and fails the
    batch.
  - Any other Rotation-Direction value is accepted and cached, negative
    values included.
  - Other types are "resource absent" and do not affect the return code.
- `fan_read` is the fan service's read callback. For a Rotation-Direction
  characteristic it toggles the cached value: 1 becomes 0 and anything
  else becomes 1. It then reports `SUCCESS`. It always returns
  `HAP_SUCCESS`.

Layout:

- `hap.dfy` (module `Hap`) holds the SDK side:
  - characteristic handles tagged with their type;
  - the value union;
  - status and return codes;
  - the value cache, as class `CharStore`, whose only operation is
    `hap_char_update_val`;
  - the single status slot of a read, as class `StatusCell`;
  - two value-level specifications, `BatchReturn` (the combined return
    code of a batch) and `StoreAfter` (the cache after a batch), with
    their lemmas.
- `hardware.dfy` (module `Hardware`) holds the light-bulb hardware, class
  `Lightbulb`. It keeps a log of the setter calls it received and an
  oracle `answer` that gives the result of the k-th call.
- `lightbulb_service.dfy` models `lightbulb_write`:
  - the per-entry rule: `SetterCallFor`, `LightStatus` and `EntryStatus`;
  - one pass of the loop, as method `WriteEntry`;
  - the loop itself, as method `LightbulbWrite`, which works in place on
    the status array, the cache and the hardware;
  - a value-level replay of the loop (`Step` and `Run`) and lemmas on what
    that replay produces.
- `fan_service.dfy` models `fan_write` (`FanWrite`) and `fan_read`
  (`FanRead`), with their per-entry rule, return code and lemmas.

`LightbulbWrite` and `FanWrite` both take two preconditions:

- `count` is at most the length of the request.
- Every entry carries its value in the union member its characteristic
  declares (`Formatted`). The HAP core validates formats before it calls
  a write callback, and the handlers read the union member that matches
  the type without checking. A negative `count` visits no entry, like the
  C `for` loop.

## Model

| member | source | states |
|---|---|---|
| Hap.Processed | src/main.cpp:87 | the loop visits `count` entries, and none when `count` is zero or negative |
| Hap.BatchReturn | src/main.cpp:116-123 | the combined return code is always `HAP_SUCCESS` or `HAP_FAIL` |
| Hap.BatchReturnFails | src/main.cpp:116-123 | the combined code is `HAP_FAIL` exactly when some processed entry's status is not `SUCCESS`; with no such entry (an empty batch included) it is `HAP_SUCCESS` |
| Hap.StoreAfter | src/main.cpp:114-121 | the cache after a batch: walking the entries in order, each entry whose status is `SUCCESS` stores its value and the others leave the cache alone; no characteristic already cached is ever dropped |
| Hap.StoreAfterUntouched | src/main.cpp:116-121 | a characteristic that no successful entry targets keeps its cached value, or stays absent |
| Hap.StoreAfterLastWins | src/main.cpp:116-117 | a successful entry with no later successful entry for the same characteristic leaves its value cached |
| Hap.StoreAfterFormats | src/main.cpp:117 | caching well-formatted successful entries keeps every cached value in its characteristic's format |
| Hap.CharStore.constructor | src/main.cpp:171-182 | a cache starts from the given values, each created in its characteristic's format (as `hap_char_brightness_create(50)` creates an integer), and is then valid |
| Hap.CharStore.UpdateVal | src/main.cpp:117 | `hap_char_update_val` sets the one characteristic to the new value and changes nothing else; a valid cache stays valid when the value is in the characteristic's format |
| Hardware.Payload | src/main.cpp:93-108 | an On call carries a boolean and a Brightness call an integer; Hue and Saturation calls carry floats |
| Hardware.Target | src/main.cpp:91-110 | each setter call belongs to one light-bulb type (On, Brightness, Hue or Saturation, never Rotation-Direction or another type), and the value it carries is in that type's format |
| Hardware.Lightbulb.Invoke | src/main.cpp:93 | a setter call is appended to the hardware log, and its result is the oracle's answer for that position |
| LightbulbService.SetterCallFor | src/main.cpp:91-113 | a well-formatted entry triggers a setter call exactly when its type is On, Brightness, Hue or Saturation; the call is the setter of that very type (`Target` of the call is the entry's type), and it carries the written value |
| LightbulbService.CallsOf | src/main.cpp:91-113 | an entry makes one hardware call if it has a setter and none otherwise |
| LightbulbService.LightStatus | src/main.cpp:90-113 | the status is one of `SUCCESS`, `VAL_INVALID` and `RES_ABSENT`; it is `SUCCESS` exactly when there was a setter call and it returned 0, and `RES_ABSENT` exactly when there was no call |
| LightbulbService.SetterCalls | src/main.cpp:87-113 | `n` entries make at most `n` hardware calls |
| LightbulbService.SetterCallsPrefix | src/main.cpp:87 | entries reach the hardware in index order: the calls of a shorter prefix are a prefix of the calls of a longer one |
| LightbulbService.SetterCallAt | src/main.cpp:91-113 | entry `i` of a recognised type appends exactly one call, its own `SetterCallFor`, to the calls of the entries before it; that call sits at the position right after those calls, is the setter of the entry's type and carries the entry's value; an entry of any other type makes none |
| LightbulbService.SetterCallsNone | src/main.cpp:111-113 | a batch of unrecognised types leaves the hardware untouched |
| LightbulbService.EntryStatus | src/main.cpp:88-113 | a well-formatted recognised entry is `SUCCESS` exactly when the answer to its own call is 0, and `VAL_INVALID` otherwise; a well-formatted unrecognised entry is `RES_ABSENT`; no other status occurs |
| LightbulbService.WriteEntry | src/main.cpp:88-121 | one pass writes only slot `i`, with the `LightStatus` of the entry's call and answer; it appends only that entry's calls to the log; it caches the entry exactly when the slot is `SUCCESS`, and otherwise sets the return code to `HAP_FAIL`; for any description `p` of the earlier passes that matches the current state, the slot, log, cache and return code are those of `Step` from `p` |
| LightbulbService.Step | src/main.cpp:88-121 | one pass of the loop, on values, adds exactly one status and at most one setter call; an entry that does not succeed leaves the cache as it was and fails the batch |
| LightbulbService.Run | src/main.cpp:84-124 | the value-level replay of the loop writes one status per entry |
| LightbulbService.RunCalls | src/main.cpp:87-113 | the loop makes exactly the setter calls of the recognised entries, in entry order |
| LightbulbService.RunStatuses | src/main.cpp:88-113 | every entry's final status is its `EntryStatus`, which depends only on that entry and the answer to its own call |
| LightbulbService.RunValues | src/main.cpp:114-121 | the final cache is the initial one updated, in order, by exactly the entries whose status is `SUCCESS` |
| LightbulbService.RunRet | src/main.cpp:116-123 | the return code is the combined code of the statuses written |
| LightbulbService.RunFails | src/main.cpp:85-123 | the handler returns `HAP_FAIL` exactly when some entry did not succeed, and `HAP_SUCCESS` for an empty batch |
| LightbulbService.RunMeaning | src/main.cpp:84-124 | for any statuses that agree with the ones written, the final cache is their `StoreAfter`, the return code is their `BatchReturn`, each status is its `EntryStatus`, and the calls are `SetterCalls` |
| LightbulbService.LightbulbWrite | src/main.cpp:84-124 | the status slots, hardware log, cache and return code are those of `Run` over the processed entries; each processed slot holds its `EntryStatus`; the slots past `count` are unchanged; the hardware received exactly `SetterCalls` |
| FanService.FanStatus | src/main.cpp:62-79 | On is `SUCCESS`; a Rotation-Direction value is `VAL_INVALID` exactly when it is above 1, and `SUCCESS` otherwise, negative values included; any other type is `RES_ABSENT`; `VAL_INVALID` occurs exactly for a rejected direction |
| FanService.FanStatuses | src/main.cpp:60-79 | the statuses of the first `n` entries are their `FanStatus`, in entry order |
| FanService.FanReturn | src/main.cpp:58-81 | the fan handler's return code is always `HAP_SUCCESS` or `HAP_FAIL` |
| FanService.FanReturnFails | src/main.cpp:68-81 | the fan batch fails exactly when it holds a Rotation-Direction value above 1; "resource absent" entries do not fail it |
| FanService.FanReturnIsInvalid | src/main.cpp:69-78 | the fan batch fails exactly when some entry's status is `VAL_INVALID` |
| FanService.StoreAfterKeepsDirections | src/main.cpp:68-76 | a cache that only takes Rotation-Direction values of at most 1 keeps every Rotation-Direction value at most 1 |
| FanService.FanWriteKeepsDirections | src/main.cpp:68-76 | `fan_write` never caches a Rotation-Direction value above 1 |
| FanService.FanWrite | src/main.cpp:52-82 | each processed slot holds its `FanStatus` and the slots past `count` are unchanged; the cache is the initial one updated by exactly the successful entries, in order; the return code is `FanReturn` |
| FanService.Toggled | src/main.cpp:38-42 | the new direction is 0 or 1, and it is 0 exactly when the old one was 1 |
| FanService.ToggledTwice | src/main.cpp:38-42 | two reads in a row restore a direction of 0 or 1, and take any other value to 0 |
| FanService.FanRead | src/main.cpp:26-47 | for a Rotation-Direction characteristic, the cached value is replaced by its toggle and the status set to `SUCCESS`; for any other type, the cache and status are untouched; the result is always `HAP_SUCCESS`; it needs a valid cache (every value in its characteristic's format) that holds the characteristic, and leaves the cache valid; the at-most-1 bound on directions is preserved |

## Left out

- `setup`, `identify` and `loop` are left out. They cover Wi-Fi bootstrapping, SDK object creation and accessory registration, which are I/O and library plumbing. The characteristics `setup` creates enter the model only as the initial values handed to the `CharStore` constructor.
- `ESP_LOGI` logging and the `hap_req_get_ctrl_id` controller-id lookups are left out. They are side output only.
- The SDK internals are abstracted away: type-UUID strings and their `strcmp` matching become the `CharType` tag, and the characteristic store becomes a map from handle to value.
- The bodies of the `lightbulb_set_*` setters are not shown, so they are modelled only by the integer each call returns: the oracle `answer`, indexed by call position.
- Hue and saturation floats are opaque 32-bit payloads. They are only passed through.
- The C union is read as whatever member the code names. The model instead has a sum type, and each handler requires values in their declared format (`Formatted` for a write request, `CharStore.Valid()` for the cache a read toggles), which the HAP core guarantees. Reinterpreting a value stored in another member is not modelled.
- `write_data` is a read-only sequence of entries, and the per-entry `status` pointers are one array of slots. Aliasing between status pointers is not modelled.
- LightbulbWrite: states the cache and the return code through `Run` rather than through the status array. `RunMeaning` turns them into `StoreAfter` and `BatchReturn` of the statuses written.
- LightbulbWrite: does not state `CharStore.Valid()` in its own contract. `RunValues` with `StoreAfterFormats` gives it for the cache it leaves.
- FanWrite: does not state `CharStore.Valid()` in its own contract. `StoreAfterFormats` gives it for the cache it leaves.
