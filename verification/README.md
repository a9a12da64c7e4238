# CocktailBerry Payment — a verified model of its core

CocktailBerry Payment keeps a prepaid balance per NFC card. Users top the card up
at a service desk, and the cocktail machine charges it per drink. The backend
service holds the card table and offers these calls:

- lookup and paging;
- create, partial update and delete;
- top-up against a minimum-balance floor;
- booking, which checks in a fixed order: unknown card, then the age gate, then sufficient funds.

This project models that core in Dafny, together with the small pieces around it:

- the request and table schemas;
- the in-memory card store of the two front ends;
- the amount selector of the top-up screen;
- the `.env` reader and writer and the setup prompt of the installer helpers;
- the typed editing of one settings row in the config tab;
- the NFC id mailbox with its callback registry;
- the API-key guard.

Module layout, one file per source file:

| file | module | models |
|---|---|---|
| wrappers.dfy | Wrappers | `Option` / `Result` |
| pytext.dfy | PyText | the Python `str` operations the core uses: `strip`, `lower`/`upper`, `startswith`, `index`, `str(int)` |
| schemas.dfy | Schemas | src/backend/models/schemas.py |
| user_models.dfy | UserModels | src/backend/models/user.py |
| ledger.dfy | Ledger | src/backend/service/user_service.py as functions on the card table, with the contract of each call |
| user_service.dfy | UserService | the same calls as read-check-write methods on a `Session` holding the table |
| payment_logs.dfy | PaymentLogs | the payment-log entries of the later class-based service |
| user_store.dfy | UserStores | src/frontend/store.py and src/nicegui/store.py (the same class, line for line) |
| amount_selector.dfy | AmountSelectors | src/frontend/components/amount_selector.py |
| helpers.dfy | Helpers | src/shared/helpers.py |
| config_tab.dfy | ConfigTab | src/frontend/tabs/config_tab.py |
| nfc_manager.dfy | NfcManagers | src/backend/core/nfc_manager.py |
| middleware.dfy | Middleware | src/backend/core/middleware.py |

Money is `real`. The card table is a sequence of rows in storage order with unique card
ids, because `get_users` pages through the table by position. A Python dict with
insertion order is an association list with distinct keys. Listeners and callbacks are
opaque ids, and every call made to them is recorded in a trace field.

## Model

| member | source | states |
|---|---|---|
| Ledger.StatusCode | src/backend/service/user_service.py:24-25 | each error maps to its HTTP status: not found 404, already exists and below minimum 400, underage 403, insufficient balance 402, and only those |
| Ledger.Find | src/backend/service/user_service.py:9-10 | absent exactly when no row has the id; otherwise the index of the first row with that id |
| Ledger.GetUserByNfc | src/backend/service/user_service.py:9-10 | returns a stored row carrying the requested id, and None exactly when no stored row carries it |
| Ledger.GetUsers | src/backend/service/user_service.py:17-18 | the rows at positions start, start+1, … in storage order, where start is skip or 0 for a negative skip; at most `limit` rows for a limit of 0 or more, and fewer only when the table runs out; a negative limit puts no bound |
| Ledger.GetUsersNegative | src/backend/service/user_service.py:17-18 | a negative limit returns every row from the offset on; a negative offset pages as offset 0 does |
| Ledger.FindUnique | src/backend/models/user.py:11 | with unique ids, looking up the id of row i finds row i |
| Ledger.GetAppend | src/backend/service/user_service.py:28-29 | appending a row with a fresh id keeps ids unique; that id now finds the row and every other id finds what it found before |
| Ledger.GetReplace | src/backend/service/user_service.py:40-45 | replacing a row by one with the same id keeps ids unique; that id finds the new row and every other id is unaffected |
| Ledger.RemoveShifts | src/backend/service/user_service.py:56 | removing row i shifts the later rows down by one and keeps the earlier ones |
| Ledger.RemoveUnique | src/backend/service/user_service.py:56 | removing a row keeps ids unique |
| Ledger.GetRemove | src/backend/service/user_service.py:52-57 | after removing row i its id finds nothing, every other id finds what it found before, and the table is one shorter |
| Ledger.CreateUser | src/backend/service/user_service.py:21-32 | fails with "already exists" exactly when a row holds the id; otherwise the table gains one row, the returned row, with the given id and balance 0.0 |
| Ledger.Apply | src/backend/service/user_service.py:40-45 | each supplied field (name, age flag, balance) replaces the stored one, each absent one keeps it, and the id never changes; age flag and balance are merged by UserModels.ApplyUpdate |
| Ledger.UpdateUser | src/backend/service/user_service.py:35-49 | fails with 404 exactly when no row holds the id; otherwise returns the looked-up row with the update applied, and the table keeps its size |
| Ledger.DeleteUser | src/backend/service/user_service.py:52-57 | fails with 404 exactly when no row holds the id; otherwise the table is one row shorter |
| Ledger.UpdateBalance | src/backend/service/user_service.py:60-79 | 404 for an unknown card; a success returns the old balance plus the amount, which is at least the floor |
| Ledger.BookCocktail | src/backend/service/user_service.py:82-102 | 404 for an unknown card; a success returns the old balance minus the price, which is at least 0, and an alcoholic drink only for an adult |
| Ledger.CreateUserSpec | src/backend/service/user_service.py:21-32 | fails with "already exists" exactly when the id is taken, leaving the table as it was; otherwise adds exactly one row with the given name and age flag and balance 0.0, and every other id is unaffected |
| Ledger.UpdateUserSpec | src/backend/service/user_service.py:35-49 | fails with 404 exactly when the id is unknown; otherwise overwrites exactly the supplied fields, keeps the rest, and leaves every other row alone |
| Ledger.DeleteUserSpec | src/backend/service/user_service.py:52-57 | fails with 404 exactly when the id is unknown; otherwise only that card disappears and every other id is unaffected |
| Ledger.UpdateBalanceSpec | src/backend/service/user_service.py:60-79 | 404 exactly when the id is unknown; 400 exactly when old + amount < floor, with nothing changed; otherwise the balance becomes old + amount (so at least the floor) and nothing else changes |
| Ledger.BookCocktailSpec | src/backend/service/user_service.py:82-102 | the checks in order: 404 when unknown, then 403 for an alcoholic drink and a minor, then 402 when the balance is below the price; on success the balance drops by exactly the price, stays at least 0, and nothing else changes |
| Ledger.ReplacedRows | src/backend/service/user_service.py:40-45 | after a row is replaced, every row is either an old row or the new one |
| Ledger.RemovedRows | src/backend/service/user_service.py:56 | after a row is removed, every row is an old row |
| Ledger.StepKeepsFloor | src/backend/service/user_service.py:21-102 | any single write keeps ids unique and keeps every balance at or above a floor at or below zero, unless a direct update itself sets a lower balance |
| Ledger.RunKeepsFloor | src/backend/service/user_service.py:21-102 | the same over any sequence of writes |
| Ledger.UpdateUserSkipsFloor | src/backend/service/user_service.py:44-45 | a direct update sets a balance of -5000.0 under a floor of -1000.0: update_user does not check the floor |
| Ledger.TopUpsAdd | src/backend/service/user_service.py:65-76 | two successful top-ups raise the balance by their sum |
| UserService.Session.constructor | src/backend/service/user_service.py:9-18 | a session over a table with unique ids |
| UserService.CreateUser | src/backend/service/user_service.py:21-32 | the method answers and changes the table as Ledger.CreateUser says; a failure changes nothing; ids stay unique |
| UserService.UpdateUser | src/backend/service/user_service.py:35-49 | the step-by-step field assignments give Ledger.UpdateUser's answer and table; a failure changes nothing |
| UserService.DeleteUser | src/backend/service/user_service.py:52-57 | the table after the delete is Ledger.DeleteUser's; a failure changes nothing |
| UserService.UpdateBalance | src/backend/service/user_service.py:60-79 | as Ledger.UpdateBalance; a returned row's balance is at least the floor |
| UserService.BookCocktail | src/backend/service/user_service.py:82-102 | as Ledger.BookCocktail; a returned row's balance is at least 0 |
| PaymentLogs.LogReconciles | src/backend/service/user_service.py:21-102 | an entry is written exactly when the call succeeds. Create logs "Created" with amount 0.0; update logs "Updated" with the supplied balance as amount, or 0.0 when the update supplies none; delete logs "Deleted" with amount 0.0 and balance 0.0; top-up logs "Top Up" with the delta; booking logs the drink with minus the price. For create, top-up and booking the balance after is the balance before plus the amount; every entry but a delete's holds the stored balance |
| PaymentLogs.LogOf | src/backend/service/user_service.py:21-102 | no entry only for a call that leaves the table as it was; an entry names the card the call is about |
| Schemas.MakeUserBase | src/backend/models/schemas.py:4-11 | accepted exactly when nfc_id and name are non-empty, each empty one being reported; is_adult defaults to false |
| Schemas.MakeUserUpdate | src/backend/models/schemas.py:14-17 | every field optional; accepted exactly when a supplied name is non-empty |
| Schemas.MakeBookCocktail | src/backend/models/schemas.py:30-33 | accepted exactly when nfc_id is non-empty and amount > 0; each violation reported |
| Schemas.MakeBalanceUpdate | src/backend/models/schemas.py:36-38 | accepted exactly when nfc_id is non-empty; the amount may have any sign |
| Schemas.ValidRecordsRebuild | src/backend/models/schemas.py:4-38 | every valid record is accepted by its builder unchanged |
| Schemas.NegativeAmounts | src/backend/models/schemas.py:30-38 | a negative amount is a valid balance change but an invalid booking, refused for its amount alone |
| UserModels.MakeUser | src/backend/models/user.py:8-23 | needs a non-empty nfc_id; is_adult defaults to false and balance to 0.0; supplied values are kept |
| UserModels.ApplyUpdate | src/backend/models/user.py:26-30 | a supplied field replaces the stored one, an absent one keeps it, and the id never changes |
| UserModels.NoChangeKeeps | src/backend/models/user.py:26-30 | the all-absent update changes nothing |
| UserModels.NewPaymentLog | src/backend/models/user.py:33-52 | a new log row has no id and no timestamp yet |
| UserModels.StoreLog | src/backend/models/user.py:40-49 | storing assigns the next id and a timestamp and keeps every other field |
| UserStores.WithBalance | src/frontend/store.py:46-52 | a missing balance becomes 10.0, a present one is kept, and id and age flag are untouched |
| UserStores.BalanceOf | src/frontend/store.py:65 | a record's balance, or 10.0 when it has none |
| UserStores.SeedCards | src/frontend/store.py:20-28 | seven cards, each under its own id, each with a balance of at least 0 |
| UserStores.UserStore.constructor | src/frontend/store.py:20-30 | the store starts with the seven seeded cards and no listeners |
| UserStores.UserStore.AllUsers | src/frontend/store.py:36-38 | the copy holds exactly the stored cards |
| UserStores.UserStore.GetUser | src/frontend/store.py:40-42 | the record under the id, or None exactly when absent |
| UserStores.UserStore.Notify | src/frontend/store.py:78-80 | every listener is called once, in registration order, and nothing else changes |
| UserStores.UserStore.AddUser | src/frontend/store.py:46-54 | stores the record under its own id, replacing any old one; fills in a missing balance; notifies; returns the id |
| UserStores.UserStore.DeleteUser | src/frontend/store.py:56-60 | a present id is removed and listeners notified; an absent id changes nothing and calls no one |
| UserStores.UserStore.UpdateBalance | src/frontend/store.py:62-70 | a present card gets current + amount (current defaults to 10.0), which is returned, and listeners are notified; an absent card returns 0.0 and changes nothing |
| UserStores.UserStore.AddListener | src/frontend/store.py:74-76 | appends the listener and changes nothing else |
| AmountSelectors.FormatDisplay | src/frontend/components/amount_selector.py:69-76 | prefix "+ " exactly for a positive value with signs shown, "- " exactly for a negative one, empty otherwise; the magnitude is the absolute value |
| AmountSelectors.Clamp | src/frontend/components/amount_selector.py:100-106 | the result lies in [min, max] when min <= max, equals an in-range value, and is the bound the value overshot |
| AmountSelectors.ClampIdempotent | src/frontend/components/amount_selector.py:100-106 | clamping a clamped value changes nothing |
| AmountSelectors.OrDefault | src/frontend/components/amount_selector.py:40-41 | a missing or empty list falls back to the default |
| AmountSelectors.AmountSelector.constructor | src/frontend/components/amount_selector.py:15-44 | defaults 10.0, 0.0, 1000.0, presets [5, 10, 20, 50], steps [-5, -1, 1, 5]; the label shows the initial value |
| AmountSelectors.AmountSelector.RefreshDisplay | src/frontend/components/amount_selector.py:78-82 | redraws the label and calls the change callback once with the value, if one is set |
| AmountSelectors.AmountSelector.Value | src/frontend/components/amount_selector.py:84-87 | the getter returns the stored amount, which the label shows after every change |
| AmountSelectors.AmountSelector.SetValue | src/frontend/components/amount_selector.py:89-98 | stores the amount exactly, unclamped, which the getter then returns |
| AmountSelectors.AmountSelector.Reset | src/frontend/components/amount_selector.py:110-113 | stores the given amount, 10.0 by default, unclamped |
| AmountSelectors.AmountSelector.ChangeValue | src/frontend/components/amount_selector.py:100-108 | value + delta clamped into [min, max], and so in range whenever min <= max |
| Helpers.Get | src/shared/helpers.py:63 | absent exactly when the key is not in the dict; otherwise a value stored under it |
| Helpers.Put | src/shared/helpers.py:46 | `d[k] = v` keeps the length for a present key and adds one for a new key |
| Helpers.PutGet | src/shared/helpers.py:46 | after `d[k] = v`, k reads v and every other key reads what it did |
| Helpers.PutKeys | src/shared/helpers.py:46 | `d[k] = v` adds k to the keys and keeps keys distinct |
| Helpers.PutNew | src/shared/helpers.py:46 | a new key is appended at the end, which is Python's insertion order |
| Helpers.Universal | src/shared/helpers.py:39-40 | text-mode reading leaves no '\r', and leaves text without one unchanged |
| Helpers.UniversalPrefix | src/shared/helpers.py:39-40 | text without '\r' reads unchanged, whatever follows it |
| Helpers.UniversalCrLf | src/shared/helpers.py:39-40 | "\r\n" reads as one newline |
| Helpers.UniversalCr | src/shared/helpers.py:39-40 | a lone '\r' reads as a newline |
| Helpers.Lines | src/shared/helpers.py:40 | the lines joined back together give the text |
| Helpers.LinesHaveNoInnerNewline | src/shared/helpers.py:40 | iterating a file gives non-empty lines with a newline only at the end |
| Helpers.SplitEntry | src/shared/helpers.py:42-46 | nothing exactly for an empty line, a '#' line or a line without '='; otherwise a trimmed key without '=' and a trimmed value |
| Helpers.ParseLine | src/shared/helpers.py:41-46 | a blank line gives nothing; an entry's key and value are trimmed and the key holds no '=' |
| Helpers.ReadEnv | src/shared/helpers.py:34-47 | a missing file reads as the empty dict; the keys read are distinct |
| Helpers.MergeDistinct | src/shared/helpers.py:46 | storing entries one by one keeps the keys distinct |
| Helpers.ReadEnvFile | src/shared/helpers.py:34-47 | the loop computes the reading function: nothing for a missing file; lines end at "\n", "\r\n" or a lone "\r"; blank, `#` and `=`-less lines skipped; split at the first `=`, both sides trimmed; a later key overrides; the result has distinct keys |
| Helpers.WriteEnvFile | src/shared/helpers.py:50-54 | the text is one `k=v` newline-terminated line per entry, in dict order |
| Helpers.Serialize | src/shared/helpers.py:50-54 | the text holds no '\r' when no key or value does |
| Helpers.LinesOfSerialize | src/shared/helpers.py:50-54 | the written text splits back into exactly those lines |
| Helpers.SplitWritten | src/shared/helpers.py:44-46 | a `k=v` line splits at the first `=` back into k and v |
| Helpers.ParseEnvLine | src/shared/helpers.py:41-46 | a written line parses back into its key and value |
| Helpers.EntriesOfEnvLines | src/shared/helpers.py:40-46 | parsing the written lines gives one entry per written pair, in order |
| Helpers.MergePresent | src/shared/helpers.py:46 | storing entries with fresh distinct keys appends them in order |
| Helpers.WriteThenRead | src/shared/helpers.py:34-54 | reading back a written dict gives the same dict, for trimmed keys and values without '\n' or '\r', keys without '=' and not starting with '#' |
| Helpers.CarriageReturnSplitsValue | src/shared/helpers.py:39-54 | a value `a + "\r" + b` is not writable: it is written as one line but reads back as `a` alone |
| Helpers.ReadIsWritable | src/shared/helpers.py:34-47 | every dict read from any file has distinct keys and survives the format |
| Helpers.ReadWriteRead | src/shared/helpers.py:34-54 | writing what was read and reading again gives the same dict |
| Helpers.UpdateThenRead | src/shared/helpers.py:34-54 | read, set one key, write, read: gives exactly the updated dict, when key and value are trimmed, hold no '\n' or '\r', and the key has no '=' and no leading '#' |
| Helpers.Chosen | src/shared/helpers.py:63-68 | a non-empty answer wins; an empty one falls back to the existing value, else the item default |
| Helpers.PromptForValues | src/shared/helpers.py:57-70 | the loop fills the dict as PromptInto says |
| Helpers.PromptedValues | src/shared/helpers.py:57-70 | for distinct item names, the result holds one entry per item, in item order, with the chosen value |
| Helpers.SetupService | src/shared/helpers.py:26-31 | docker setup exactly when use_docker is set, plain setup otherwise |
| ConfigTab.Truncate | src/frontend/tabs/config_tab.py:139-140 | `int()` truncates toward zero |
| ConfigTab.StrOf | src/frontend/tabs/config_tab.py:130 | `str(raw)` of text is the text; of a bool, lower-cased, "true" or "false"; of None, "None" |
| ConfigTab.Coerce | src/frontend/tabs/config_tab.py:124-143 | a coerced value has the field's type |
| ConfigTab.CoerceBool | src/frontend/tabs/config_tab.py:127-135 | a bool passes through; other input is trimmed and lower-cased, and gives true exactly for "true", "1", "yes", "on", false exactly for "false", "0", "no", "off", and an error otherwise |
| ConfigTab.CoerceOther | src/frontend/tabs/config_tab.py:137-143 | non-bool fields refuse None and ""; a text field takes `str(raw)`; an int field truncates the parsed float |
| ConfigTab.SerializeEnv | src/frontend/tabs/config_tab.py:171-175 | "true"/"false" for a bool, the text itself for a string |
| ConfigTab.PlainBoolText | src/frontend/tabs/config_tab.py:130 | trimmed text without capitals is unchanged by strip-and-lower |
| ConfigTab.BoolRoundTrip | src/frontend/tabs/config_tab.py:127-135 | coercing the serialisation of a bool back into a bool gives the same bool |
| ConfigTab.TextRoundTrip | src/frontend/tabs/config_tab.py:137-175 | non-empty text coerces to itself and serialises back to itself |
| ConfigTab.FormatValue | src/frontend/tabs/config_tab.py:145-154 | a masked field always shows the mask; a bool shows its label; a string shows itself |
| ConfigTab.EnvKey | src/frontend/tabs/config_tab.py:163 | the key is the field name upper-cased, character by character |
| ConfigTab.EditorValue | src/frontend/tabs/config_tab.py:114-122 | the editor never starts empty; a bool field gets a switch value, a text field text; a well-typed bool, int or float value is handed over as it is |
| ConfigTab.SyncThenCoerce | src/frontend/tabs/config_tab.py:114-143 | the value the editor starts with coerces back to the stored value, for bool fields and non-empty text fields |
| ConfigTab.ConfigFieldRow.constructor | src/frontend/tabs/config_tab.py:40-70 | a new row is not editing, shows the formatted value and has the editor synced |
| ConfigTab.ConfigFieldRow.Type | src/frontend/tabs/config_tab.py:110-112 | what the user types becomes the editor value and nothing else changes |
| ConfigTab.ConfigFieldRow.StartEdit | src/frontend/tabs/config_tab.py:79-85 | sets editing and syncs the editor to the stored value |
| ConfigTab.ConfigFieldRow.PersistEnvValue | src/frontend/tabs/config_tab.py:161-169 | the file afterwards is the read dict with the upper-cased key set to the serialised value, written back |
| ConfigTab.ConfigFieldRow.SaveValue | src/frontend/tabs/config_tab.py:87-106 | an uncoercible input leaves editing set and changes nothing; a valid one sets the setting, shows it, persists it and clears editing |
| ConfigTab.ConfigFieldRow.ToggleEdit | src/frontend/tabs/config_tab.py:72-77 | when not editing: starts editing with the editor synced, and setting, label and file unchanged; when editing: the editor is kept, an uncoercible value changes nothing and stays in edit mode, and a valid one sets the setting, shows it, writes the `.env` file and leaves edit mode |
| ConfigTab.SavedSettingReadsBack | src/frontend/tabs/config_tab.py:161-169 | after a save the file reads back the field's key as the serialised value and every other key as it was, when the serialised value is trimmed and holds no '\n' or '\r' |
| NfcManagers.RemoveFirst | src/backend/core/nfc_manager.py:61 | `list.remove` shortens the list by one |
| NfcManagers.RemoveFirstMembers | src/backend/core/nfc_manager.py:59-61 | removing keeps every other callback, and removes the callback entirely from a duplicate-free list |
| NfcManagers.RemoveFirstKeepsDistinct | src/backend/core/nfc_manager.py:59-61 | removing from a duplicate-free list keeps it duplicate-free |
| NfcManagers.RemoveAppended | src/backend/core/nfc_manager.py:55-61 | removing a callback just appended to a list without it gives the list back |
| NfcManagers.Deliveries | src/backend/core/nfc_manager.py:46-47 | one call per callback, in list order, each given the card id |
| NfcManagers.NfcManager.constructor | src/backend/core/nfc_manager.py:26-30 | empty mailbox, no callbacks |
| NfcManagers.NfcManager.OnNfcRead | src/backend/core/nfc_manager.py:43-47 | the id becomes the latest, then every callback is called with it, in list order |
| NfcManagers.NfcManager.GetLatestNfcId | src/backend/core/nfc_manager.py:49-53 | returns the latest id and empties the mailbox |
| NfcManagers.NfcManager.AddCallback | src/backend/core/nfc_manager.py:55-57 | appends only a callback not yet present, so the list stays duplicate-free |
| NfcManagers.NfcManager.RemoveCallback | src/backend/core/nfc_manager.py:59-61 | a present callback is removed, an absent one is a no-op; afterwards it is absent and the list stays duplicate-free |
| NfcManagers.TakeTwice | src/backend/core/nfc_manager.py:49-53 | a second take straight after the first finds the mailbox empty |
| NfcManagers.AddThenRemove | src/backend/core/nfc_manager.py:55-61 | registering a new callback and removing it restores the registry |
| Middleware.CheckApiKey | src/backend/core/middleware.py:9-13 | accepted exactly when the key is present and equals the configured key; a missing key gives 401 "Missing API Key" before any comparison; a wrong key gives 401 "Invalid API Key" |
| Middleware.HeaderKey | src/backend/core/middleware.py:6 | an absent or empty `x-api-key` header gives no key; any other header is the key |
| Middleware.Guard | src/backend/core/middleware.py:6-13 | accepted exactly when the header equals a non-empty configured key; an empty header is refused as missing, never as invalid |

## Left out

- HTTP transport, routing, uvicorn startup, the database session (commit, refresh) and transactions. The table is a plain value held by a `Session` object.
- Error detail texts of the service. Each error is a named case mapped to its status code; the formatted amounts in the messages are not modelled.
- `MIN_BALANCE` comes from a backend constants module that is not part of this model, so it is a parameter. The front end uses -1000.0.
- get_user_by_id (src/backend/service/user_service.py:13-14) looks up the auto id, which the shown table model does not have. It is not modelled.
- The card table is a sequence in storage order rather than a map, so that offset/limit paging has an order. Unique ids are its invariant.
- The shown `User` table has no `name` column, while the service writes one. The model follows the service and keeps a name in each row.
- PaymentLogs.LogOf: the log is that of a later, class-based service version whose code is not part of this model. Its entries follow that version's documented behaviour. Its tests pin down the descriptions, and the amounts of a creation, an update with a balance, a top-up and a booking. An update without a balance logging 0.0, and a delete logging amount 0.0 with balance 0.0, rest on the documentation alone.
- There is no master-key bypass for booking anywhere in the shown code, so none is modelled.
- Floating point. Money is `real`, so there is no rounding. The `.2f` display, `float(raw)` parsing and `str(float)` are parameters of `ConfigTab.FloatText`.
- PyText.Lower and PyText.Upper map ASCII letters only. Python's full Unicode case mapping is not modelled.
- Helpers.ReadEnvFile: the file is given as its text, or None when it does not exist. Its bytes are taken as already decoded; the platform's text encoding is not modelled. Writing uses "\n" as on Linux; Windows' "\r\n" on write is not modelled, which does not matter to reading since both read as one newline.
- set_user_env_vars (PowerShell, Windows only) is I/O and is not modelled, so PersistEnvValue only writes the `.env` file.
- prompt_for_values: the terminal prompt becomes a sequence of answers, one per item.
- ConfigSection.setup_service: the two setup callables become the returned `SetupCall`.
- UserStores.UserStore.AddUser: Python stores the caller's dict itself, so a later change through that dict, or through a record returned by `get_user`, also changes the store. Records are values here, so that aliasing is not modelled. A record's dict keys other than card id, adult flag and balance are also not modelled.
- UserStores.UserStore: the records are a map, so the insertion order of the Python dict that `all_users` returns, and that the manage tab lists, is not modelled.
- Listeners and callbacks are ids, and calls to them are recorded. A listener that itself changes the store or the registry while being called is not modelled. `_notify` iterates over a snapshot of the list.
- NfcManagers: the card reader, `start`/`stop`, the singleton construction and the lock are not modelled.
- ConfigTab: the widgets, notifications and translations are left out. The editor value is the `Raw` value the user typed. A row exists only for a field the settings object has; the config tab's field list also names `native_mode` and `full_screen`, which the config object does not define.
- AmountSelectors: the NiceGUI widgets are left out; the label is its sign prefix and magnitude.
