# Nintendo dock power HAL, modelled in Dafny

This project models the core of the AIDL service `android.hardware.nintendo.dock`.
The core is `aidl/src/Dock.cpp`, which works on the state declared in
`aidl/src/Dock.h:60-64`. It has three parts:

* **The profile table.** `Dock::parseConfig` reads `/vendor/etc/dock.<hardware>.<sku>.txt`
  line by line into `std::map<PowerMode, std::vector<int32_t>> supportedModes`.
  - Comment lines and empty lines are skipped.
  - Every other line is cut into terms with `getline(…, ' ')`.
  - A line must hold 3 or 4 terms. Term 0 is the mode and terms 1 and 2
    are appended to that mode's vector.
* **The AIDL calls.**
  - `setPowerMode` and `getPowerMode` store and return the selected mode.
  - `getDockedState` returns the docked flag.
  - The three `getAvailable*` calls walk the map in ascending key order and
    append to the caller's vector:
    - `getAvailableModes` appends the keys;
    - `getAvailableCpuFreqs` appends element 1 of each vector;
    - `getAvailableGpuFreqs` appends element 0 of each vector.
* **The uevent handler.** `uevent_event` takes a kernel uevent message of
  NUL-separated fields.
  - It reports "USB partner" fields, those matching `(add)(.*)(-partner)`.
  - It reports "type-C" fields, those starting with `DEVTYPE=typec_`.
  - It stops at the first empty field, or right after a type-C field.

The model is in four modules, one per file:

* `ctext.dfy` (`CText`) holds the character-level helpers.
  - Splitting on a delimiter (`Split`/`Join`) serves both `getline(…, ' ')`
    and the walk over NUL-terminated fields.
  - There is a model of `std::stoi` on a 32-bit `int`: leading white space,
    an optional sign and the longest digit run. No digits throws
    `invalid_argument`; a value outside `int` throws `out_of_range`.
  - `Show` writes a number in decimal; it is the partner of `Stoi`.
* `profile_table.dfy` (`ProfileTable`) holds the parser as functions of the
  lines, and the lemmas about the table it builds.
  - `ParseLine` is one turn of the loop.
  - `ParseLines` is the whole file. It is `RunLines`, a loop over lines that
    stops at the first line that halts.
* `uevent.dfy` (`Uevent`) holds the handler as a method over a local buffer.
  It is proved equal to `ScanFields` over the NUL-separated fields.
* `dock.dfy` (`DockService`) holds `class Dock`, whose fields are the ones
  the C++ object updates.
  - The constructor and `ParseConfig` run the parser imperatively: a line
    loop, `getline` term by term, `insert` and `push_back`. Both are proved
    equal to `ParseLines`.
  - The getters are loops over the keys in ascending order.

The code is modelled as written, including its quirks:

* `map::insert` never overwrites. A mode that appears on several lines keeps
  its old values and gets the new pair appended.
* A failing line ends parsing at once. Whatever the earlier lines added stays
  in the table.
* `insert` runs before `stoi(tokens[1])`. A line whose second term is not a
  number therefore leaves a new mode with an empty vector.
* A 4-term line pushes terms 1 and 2 and then evaluates `tokens[4]` on a
  4-element vector. That read is undefined behaviour, and the model makes it
  an explicit failure outcome (`TokenIndexOutOfBounds`) that ends parsing.
* No `stoi` exception is caught, so an exception ends the constructor
  (`StoiThrew`).
* The frequencies are stored exactly as written. The code does no unit
  conversion and no scaling, and neither does the model.
* The getters index `[0]` and `[1]`. The model proves these reads safe
  whenever construction did not end in a `stoi` exception
  (`ParseKeepsWellFormed`, `Dock.constructor`).

## Model

| member | source | states |
|---|---|---|
| CText.JoinSplit | aidl/src/Dock.cpp:105-107 | the pieces between delimiters hold no delimiter and glue back into the string; a final empty piece, which `getline` does not return as a term, is among them (`TokensJoin` states the `getline` version) |
| CText.SplitJoin | aidl/src/Dock.cpp:105-107 | space-free words joined by single spaces are cut back into the same words |
| CText.SplitSnoc | aidl/src/Dock.cpp:105-107 | reading one more character extends the current term, or a space closes it and opens a new, empty one |
| CText.LastPieceEmpty | aidl/src/Dock.cpp:105-107 | the last piece is empty exactly when the line is empty or ends in the delimiter |
| CText.StoiOfShow | aidl/src/Dock.cpp:113 | `stoi` reads back every decimal number that fits in `int`, and throws `out_of_range` for every one that does not |
| CText.StoiShow | aidl/src/Dock.cpp:118-119 | every 32-bit value written in decimal is read back unchanged |
| CText.Stoi | aidl/src/Dock.cpp:113-119 | `std::stoi` yields a 32-bit value or throws; a term with no digit, the empty term among them, throws `invalid_argument` |
| ProfileTable.Tokens | aidl/src/Dock.cpp:101-107 | the terms `getline(…, ' ')` extracts hold no space, and a line has no term only when it is empty |
| ProfileTable.SplitTokens | aidl/src/Dock.cpp:101-107 | the character loop of `getline(lstream, term, ' ')` collects exactly `Tokens(line)` |
| ProfileTable.TokensJoin | aidl/src/Dock.cpp:101-107 | the terms, with the empty piece a final space leaves, glue back into the line with single spaces |
| ProfileTable.TokensOfJoin | aidl/src/Dock.cpp:101-107 | space-free words whose last one is not empty, joined by single spaces, tokenize back into the same words |
| ProfileTable.TrailingSpaceIgnored | aidl/src/Dock.cpp:105-107 | one space at the end of a line adds no term |
| ProfileTable.SkippedByTerms | aidl/src/Dock.cpp:95-99 | the lines `IsSkipped` passes over are exactly those with no term or whose first term starts with `#` |
| ProfileTable.Insert | aidl/src/Dock.cpp:115-116 | `insert` maps a new key to an empty vector and leaves every existing entry as it was |
| ProfileTable.PushToken | aidl/src/Dock.cpp:118-119 | `push_back(stoi(t))` appends the parsed value to one key and changes nothing else, or stops with the exception that `stoi` threw on that term and the table unchanged |
| ProfileTable.ParseTokens | aidl/src/Dock.cpp:113-122 | a 3- or 4-term line never removes a key or value; a key it adds holds two values unless a `stoi` threw; parsing goes on only after a 3-term line whose mode parsed |
| ProfileTable.ParseTokensValues | aidl/src/Dock.cpp:113-122 | when all three numbers parse, the id's vector gains exactly `[v1, v2]`, and a fourth term ends in the `tokens[4]` failure |
| ProfileTable.ParseTokensNext | aidl/src/Dock.cpp:113-122 | parsing continues after a line only if it has exactly three terms and all three parse |
| ProfileTable.ParseLine | aidl/src/Dock.cpp:94-123 | one line never removes a key or value; comment and empty lines change nothing |
| ProfileTable.RunLinesAppend | aidl/src/Dock.cpp:94-125 | parsing a file in two parts equals parsing it whole; the second part runs only if the first ended normally |
| ProfileTable.ParseLines | aidl/src/Dock.cpp:94-125 | the loop over the lines of the file, stopping at the first line that fails: whichever way it ends, no key and no value of the table is lost |
| ProfileTable.SkippedLineIsInvisible | aidl/src/Dock.cpp:95-99 | a comment or empty line anywhere in the file changes neither the table nor the outcome |
| ProfileTable.MalformedLineStops | aidl/src/Dock.cpp:109-111 | a line with fewer than 3 or more than 4 terms returns 1 at once, and the table keeps what the earlier lines added |
| ProfileTable.ThreeTokenLine | aidl/src/Dock.cpp:113-119 | `<id> <v1> <v2>` appends v1 then v2, unconverted, to id's vector: a new id gets exactly `[v1, v2]`, a repeated id keeps its old values; no other key changes |
| ProfileTable.FourTokenLine | aidl/src/Dock.cpp:121-122 | `<id> <v1> <v2> <v3>` pushes v1 and v2, then ends in the out-of-bounds read of `tokens[4]` instead of storing v3 |
| ProfileTable.DoubledSpaceLine | aidl/src/Dock.cpp:105-118 | a doubled space gives an empty term 1, `stoi` throws after `insert`, and a new id is left with an empty vector |
| ProfileTable.ParseLineValues | aidl/src/Dock.cpp:113-119 | a line after which parsing continues adds exactly its own values to each key, and adds a key only if it names it |
| ProfileTable.ParsedTable | aidl/src/Dock.cpp:94-125 | after a successful parse each key's vector is its old vector followed by the values of every line naming it, in file order |
| ProfileTable.ContributionPaired | aidl/src/Dock.cpp:118-119 | the lines add two values per line that names a key |
| ProfileTable.ParsedEntriesPaired | aidl/src/Dock.cpp:113-125 | parsed from an empty table, every key holds exactly two values per line naming it, and at least two values |
| ProfileTable.ParseKeepsWellFormed | aidl/src/Dock.cpp:94-125 | unless a `stoi` threw, every vector still holds at least the two values the getters index |
| Uevent.IsPartnerField | aidl/src/Dock.cpp:149 | a field the partner test accepts is `add`, then a middle part, then `-partner` |
| Uevent.IsTypecField | aidl/src/Dock.cpp:153 | a field the type-C test accepts is `DEVTYPE=typec_` followed by the rest, and is never a partner field, so the order of the two tests does not matter for it |
| Uevent.ScanFieldsFromFields | aidl/src/Dock.cpp:148-161 | `ScanFields`, the scan of the fields in message order, reports at most one event per field, and each report names a non-empty field of the message |
| Uevent.FieldEnd | aidl/src/Dock.cpp:159-160 | the step loop stops at the NUL that ends the current field; the field holds no NUL |
| Uevent.ScanAtField | aidl/src/Dock.cpp:148-161 | one field of the walk: an empty field stops; a partner field is reported and the walk goes on; a type-C field is reported and stops; any other field is passed over |
| Uevent.ScanBuffer | aidl/src/Dock.cpp:144-161 | the pointer walk over the double-NUL-terminated buffer reports what `ScanFields` reports for the NUL-separated fields of the message |
| Uevent.UeventEvent | aidl/src/Dock.cpp:133-162 | nothing is reported for `n <= 0` or `n >= UEVENT_MSG_LEN`; otherwise the reports are `ScanFields` of the message's fields, in order |
| Uevent.ScanFieldsStops | aidl/src/Dock.cpp:148-161 | the reports are the partner fields before the first empty or type-C field, in order, followed by that type-C field if there is one |
| Uevent.ScanFieldsReports | aidl/src/Dock.cpp:149-157 | each report names a field of its kind; a type-C report is never a partner field and only ever comes last |
| Uevent.EmptyFirstField | aidl/src/Dock.cpp:148 | a message that begins with NUL reports nothing |
| Uevent.PartnerFieldShape | aidl/src/Dock.cpp:149 | a field is a partner field exactly when it is `add`, then characters other than `\n` and `\r`, then `-partner` |
| DockService.SortedKeys | aidl/src/Dock.cpp:57-59 | the map iterator visits only keys of the table |
| DockService.SortedKeysComplete | aidl/src/Dock.cpp:57-59 | the iterator visits every key exactly once |
| DockService.SortedKeysAscending | aidl/src/Dock.cpp:57-59 | the iterator visits the keys in strictly ascending order |
| DockService.Column | aidl/src/Dock.cpp:65-81 | the values gathered hold one entry per key, in key order: element `column` of that key's vector |
| DockService.Dock.constructor | aidl/src/Dock.cpp:230-252 | empty hardware or sku: return with an empty table; otherwise the table is what parseConfig builds; after a successful parse profile is HOS_STOCK and docked is false; the table is well formed unless `stoi` threw |
| DockService.Dock.ParseConfig | aidl/src/Dock.cpp:88-126 | the line loop leaves the table and returns the status that `ParseLines` gives |
| DockService.Dock.PushLine | aidl/src/Dock.cpp:113-122 | `insert` and the two `push_back(stoi(…))` on the terms of one line change the table as `ParseTokens` says |
| DockService.Dock.SetPowerMode | aidl/src/Dock.cpp:46-49 | any mode is stored, whether or not the table holds it, and the call always succeeds |
| DockService.Dock.GetPowerMode | aidl/src/Dock.cpp:51-54 | returns the stored mode |
| DockService.Dock.GetDockedState | aidl/src/Dock.cpp:83-86 | returns the docked flag |
| DockService.Dock.GetAvailableModes | aidl/src/Dock.cpp:56-63 | the caller's vector with every key appended in ascending order |
| DockService.Dock.GetAvailableCpuFreqs | aidl/src/Dock.cpp:65-72 | the caller's vector with element 1 of each key's vector appended, in ascending key order |
| DockService.Dock.GetAvailableGpuFreqs | aidl/src/Dock.cpp:74-81 | the caller's vector with element 0 of each key's vector appended, in ascending key order |

## Left out

- `pollWork` (aidl/src/Dock.cpp:169-228) is left out: the epoll loop, the uevent socket, the dispatch through a function pointer and the `polling` flag are I/O and concurrency. The model's `UeventEvent` takes the receive call's return value `n` and the received characters as parameters.
- The thread and mutex lifecycle in `Dock::Dock` and `Dock::~Dock` (aidl/src/Dock.cpp:254-275) is left out. It covers `pthread_create`, `pthread_kill` and `pthread_join`.
- The system-property reads and the file opening (aidl/src/Dock.cpp:89-91, 233-235) are left out. The constructor takes `ro.hardware`, `ro.boot.hardware.sku` and the lines of the file as parameters. The lines are what `getline(file, line)` yields; the model does not say how the file is cut into lines.
- Logging (`ALOGI`/`ALOGE`) is not modelled as output. In the uevent handler, the log lines are what the returned detections stand for.
- aidl/src/service.cpp and aidl/src/sysfs_utils.cpp are not part of this model. The first does binder registration; the second wraps POSIX file calls that Dock.cpp never calls.
- The `std::regex` engine is not modelled. The partner test is a predicate: prefix `add`, suffix `-partner`, length at least 11, and no `\n` or `\r`, since ECMAScript `.` matches no line terminator. `PartnerFieldShape` shows that this predicate is the pattern's whole-field match.
- `std::stoi` covers only the behaviour a base-10 call can show: C-locale white space, one sign, the longest digit run, and the two exceptions. Characters are Dafny `char`s, with no locale or encoding.
- The numeric values of the AIDL enumeration `PowerMode` are not part of this model, so `HOS_STOCK` is a constant of unspecified value. `PowerMode` is taken to hold every 32-bit value `stoi` returns. If the AIDL declaration uses a narrower backing type, the conversion at aidl/src/Dock.cpp:113 would truncate, and the model does not capture that.
- Failure paths are modelled as outcomes. An uncaught `stoi` exception (`StoiThrew`) ends the constructor, so the object is never used. The read of `tokens[4]` (`TokenIndexOutOfBounds`) is undefined behaviour, and the model stops parsing there without claiming what the C++ program then does.
- The uevent buffer past the received characters holds arbitrary old contents in C++. The model fills it with a fixed character, which the scan never reads.
- `Uevent.UeventEvent` evaluates the two field tests after locating the field's terminating NUL, not before. The tests have no side effects, so the reports are the same.
- When the constructor returns early, C++ leaves `profile` and `docked` uninitialised. The model states nothing about them in that case.
