# pyfncm dialogs, modelled in Dafny

pyfncm ("Python Food and Clientèle Manager") is a Qt desktop application
over an SQLite file. Its logic lives in dialog classes, each of which
normalises what the user typed, validates it, and then runs one SQL
statement. This project models that logic on an in-memory database:

- `Store.Database` is the SQLite file. It has the `clients` and `food`
  tables and one order table per profile. A table is a sequence of
  `Sql.Row`s, each an `id` plus the other columns. The statements the
  dialogs run are its methods, with standard SQL semantics:
  - an insert appends a row whose id is one more than the largest id, or 1
    in an empty table (the SQLite rowid rule);
  - `DELETE ... WHERE id = ?` removes every row carrying that id;
  - `CREATE TABLE IF NOT EXISTS` does nothing when a table of that name
    exists, where SQLite compares table names without regard to ASCII case.
- `Text` models Python's `str.strip()`, `str.title()` and `str.split()`
  on ASCII text.
- `Dates` models the `yyyy-MM-dd` text an order row stores.
- Each dialog is one module: `AddClient`, `AddFood`, `AddProfile`,
  `DeleteClient`, `DeleteFood`, `AddOrder`, `SelectClient` and
  `SelectFood`. A dialog whose fields change is a class with those fields,
  and its `accept` is a method over the database. The message the dialog
  shows becomes an `Outcome` value. The user's clicked row and Yes/No
  answer (`Prompt.Answer`) are inputs.

`add_profile_dialog.py` checks a profile name only for blankness and for
being already listed; it makes no check on the characters the name holds.
So any non-blank name that is not already listed is accepted
(`AddProfile.Check`), whatever characters it contains.

## Model

| member | source | states |
|---|---|---|
| Text.Title | src/add_client_dialog.py:101-102 | `title()` keeps the length; `TitleAt` pins every character |
| Text.Normalise | src/add_client_dialog.py:101-102 | `strip().title()`; its lemmas below state it is trimmed, idempotent, empty exactly on blank input and blind to letter case |
| Text.Strip | src/add_client_dialog.py:101-104 | `strip()` yields a text with no whitespace at either end that is the input with only whitespace removed from each end |
| Text.StripIdempotent | src/add_client_dialog.py:103-104 | stripping a stripped text changes nothing |
| Text.StripEmpty | src/add_client_dialog.py:103-107 | a stripped field is empty exactly when the user typed only whitespace |
| Text.TitleAt | src/add_client_dialog.py:101-102 | `title()` keeps non-letters and letters' identity; a letter becomes upper case exactly when it is first or follows a non-letter |
| Text.TitleIdempotent | src/add_client_dialog.py:101-102 | title-casing twice is title-casing once |
| Text.TitleIgnoresCase | src/add_profile_dialog.py:67 | texts that differ only in letter case title-case alike |
| Text.TitleLower | src/add_profile_dialog.py:67 | title-casing changes only the case of letters |
| Text.NormaliseTrimmed | src/add_client_dialog.py:101-102 | `strip().title()` leaves no whitespace at either end |
| Text.NormaliseIdempotent | src/add_client_dialog.py:101-102 | `strip().title()` applied twice equals applied once |
| Text.NormaliseEmpty | src/add_food_dialog.py:137-138 | a normalised name is empty exactly when the input is all whitespace |
| Text.NormaliseIgnoresCase | src/add_profile_dialog.py:67 | names typed in different letter case normalise to the same name |
| Text.NormalNamesCaseDistinct | src/add_profile_dialog.py:78 | two normalised names equal up to case are equal |
| Text.Split | src/add_order_dialog.py:108-109 | `split(sep)` yields at least one piece; its lemmas below state that joining inverts it and that no piece holds `sep` |
| Text.SplitPiecesFree | src/add_order_dialog.py:108-109 | no piece of `split(sep)` holds `sep` |
| Text.SplitFirstPrefix | src/add_order_dialog.py:108-109 | the first piece of `split(sep)` is a prefix of the text |
| Text.JoinSplit | src/add_order_dialog.py:108-109 | joining `split(sep)`'s pieces with `sep` gives back the text |
| Text.SplitSingle | src/add_order_dialog.py:108-109 | `split(sep)` has one piece, the text itself, exactly when `sep` does not occur |
| Text.SplitFirstIsWhole | src/add_order_dialog.py:108-109 | the first piece is the whole text exactly when `sep` does not occur |
| Text.SplitAfterPrefix | src/add_order_dialog.py:108-109 | splitting `prefix + sep + t`, where `sep` only ends `prefix + sep`, gives `prefix` then the pieces of `t` |
| Text.ContainsConcat | src/select_client_dialog.py:100-102 | a two-character separator occurs in `a + b` exactly when it occurs in `a`, in `b`, or across the join |
| Dates.Iso | src/add_order_dialog.py:137 | the ISO form of a date is ten characters with dashes at positions 4 and 7 |
| Dates.IsoRoundTrip | src/add_order_dialog.py:137 | the stored date text parses back to the picked date |
| Dates.ParseIsoExact | src/add_order_dialog.py:137 | every text that parses as a date is exactly that date's ISO form |
| Sql.NextRowId | src/add_client_dialog.py:79-85 | a new row's id is larger than every id in the table, so it is fresh |
| Sql.Insert | src/add_client_dialog.py:79-86 | `INSERT` appends one row with the next rowid; `InsertFacts` states what it keeps and adds |
| Sql.InsertFacts | src/add_client_dialog.py:79-86 | an insert adds exactly one row with the given columns and a fresh id, keeps the earlier rows, and keeps ids unique |
| Sql.Where | src/add_client_dialog.py:57-66 | `SELECT ... WHERE p` yields exactly the rows satisfying `p` |
| Sql.WhereNonEmpty | src/add_client_dialog.py:66-77 | the cursor yields a row exactly when some row satisfies the condition |
| Sql.Select | src/add_client_dialog.py:66-77 | the loop over the cursor collects exactly `Where(rows, p)` |
| Sql.SelectAll | src/delete_client_dialog.py:74-83 | `get_clients`' loop appends every row, so the list equals the table |
| Sql.DeleteWhereId | src/delete_client_dialog.py:89-92 | after `DELETE ... WHERE id = ?` a row remains exactly when it was there and carries another id |
| Sql.DeleteAbsentId | src/delete_client_dialog.py:89-92 | deleting an id no row carries leaves the table unchanged |
| Sql.DeletePresentId | src/delete_food_dialog.py:102-105 | under unique ids a delete removes one row if the id is present, none otherwise, and ids stay unique |
| Sql.DeleteRowAt | src/delete_client_dialog.py:116-129 | deleting the id of row `i` removes that row and keeps every other row in order |
| Store.CreateIfNotExists | src/add_profile_dialog.py:45-55 | existing tables and rows are kept; nothing changes if a table of that name (in any case) exists; otherwise one empty table is added |
| Store.CreateIdempotent | src/add_profile_dialog.py:45-55 | creating the same profile twice is creating it once |
| Store.CreateKeepsNamesDistinct | src/add_profile_dialog.py:45-55 | table names stay distinct up to case |
| Store.ReservedNameCreatesNothing | src/add_profile_dialog.py:45-46 | a profile called `food` or `clients` in any case creates no table |
| Store.InsertOrderRow | src/add_order_dialog.py:99-107 | an order insert appends exactly one row with the given columns to the profile's table and keeps every other table |
| Store.Database.InsertClient | src/add_client_dialog.py:79-86 | the clients table gets the insert; other tables are unchanged; ids stay unique |
| Store.Database.InsertFood | src/add_food_dialog.py:114-115 | the food table gets the insert; other tables are unchanged |
| Store.Database.DeleteClient | src/delete_client_dialog.py:89-92 | the clients table loses the rows with that id; food and every profile table are unchanged (no cascade) |
| Store.Database.DeleteFood | src/delete_food_dialog.py:102-105 | the food table loses the rows with that id; clients and every profile table are unchanged (no cascade) |
| Store.Database.CreateProfileTable | src/add_profile_dialog.py:42-55 | the profile tables become `CreateIfNotExists` of the old ones; clients and food are unchanged |
| Store.Database.InsertOrder | src/add_order_dialog.py:97-107 | succeeds exactly when the profile's table exists, then appends the order; otherwise nothing changes |
| AddClient.UserData | src/add_client_dialog.py:100-105 | the tuple `accept` builds: names stripped and title-cased, address and phone only stripped; `UserDataNormal` states its properties |
| AddClient.HasEmptyField | src/add_client_dialog.py:107 | `"" in user_data`; `EmptyFieldIsBlankInput` ties it to blank input |
| AddClient.NameTaken | src/add_client_dialog.py:57-66 | the duplicate `SELECT` finds a row with the same first and last name; `AddClientToDatabase` refuses exactly then |
| AddClient.UserDataNormal | src/add_client_dialog.py:100-105 | every field of the built tuple is trimmed, the names are already normal, and building the tuple again from it changes nothing |
| AddClient.EmptyFieldIsBlankInput | src/add_client_dialog.py:107-115 | the tuple has an empty field exactly when one input was all whitespace |
| AddClient.DuplicateIgnoresContact | src/add_client_dialog.py:57-66 | address and phone number play no part in the duplicate test |
| AddClient.InsertKeepsNamesUnique | src/add_client_dialog.py:57-86 | inserting a client whose name pair is free keeps name pairs unique |
| AddClient.AddClientToDatabase | src/add_client_dialog.py:53-95 | refused exactly when a client has the same first and last name, leaving the table as it was; otherwise exactly the insert; name pairs stay unique |
| AddClient.AcceptData | src/add_client_dialog.py:107-117 | a tuple with an empty field is refused and changes nothing; otherwise the outcome and the new table are those of the duplicate check and insert |
| AddClient.Accept | src/add_client_dialog.py:97-117 | an empty normalised field changes nothing; otherwise the normalised tuple goes through the duplicate check and insert |
| AddFood.FoodColumns | src/add_food_dialog.py:93-112 | without a colour all three colour columns are NULL; with one they are red, green and blue, set together |
| AddFood.NameTaken | src/add_food_dialog.py:70-80 | the duplicate `SELECT` finds a row with the same food name; `AddFoodToDatabase` refuses exactly then |
| AddFood.InsertKeepsWellFormed | src/add_food_dialog.py:70-115 | inserting a free name keeps names unique and colours all-or-nothing |
| AddFood.AddFoodToDatabase | src/add_food_dialog.py:64-128 | refused exactly when a food has the same name, leaving the table as it was; otherwise exactly one insert of `FoodColumns` |
| AddFood.WithoutAlpha | src/add_food_dialog.py:162-163 | `getRgb()[:-1]` keeps red, green and blue and drops only the alpha channel |
| AddFood.AddFoodDialog.constructor | src/add_food_dialog.py:31 | no colour is picked at first |
| AddFood.AddFoodDialog.SetColor | src/add_food_dialog.py:56-58 | stores the colour |
| AddFood.AddFoodDialog.GetColor | src/add_food_dialog.py:60-62 | returns what was last stored |
| AddFood.AddFoodDialog.Accept | src/add_food_dialog.py:134-149 | a blank name changes nothing; a taken normalised name changes nothing; otherwise the food is inserted with the picked colour |
| AddFood.ChooseColorDialog.constructor | src/add_food_dialog.py:155-157 | the colour dialog keeps its parent |
| AddFood.ChooseColorDialog.Accept | src/add_food_dialog.py:160-168 | the parent's colour becomes the current colour without alpha |
| AddProfile.Check | src/add_profile_dialog.py:64-87 | blank input is refused; a normalised name already listed is refused; otherwise the profile is the normalised, non-empty, trimmed name |
| AddProfile.CheckIgnoresCase | src/add_profile_dialog.py:67 | the checks do not depend on the case or surrounding whitespace of the input |
| AddProfile.UnlistedNameGetsTable | src/add_profile_dialog.py:78-89 | a normalised name missing from a list that covers every (normalised) table, and other than `food`/`clients`, names no table, so `CREATE TABLE IF NOT EXISTS` adds it empty |
| AddProfile.AddedProfileGetsTable | src/add_profile_dialog.py:78-89 | when the list covers every table and table names are normalised, an accepted name other than `food`/`clients` gets a new empty table |
| AddProfile.ReservedProfileCreatesNothing | src/add_profile_dialog.py:64-89 | `food` or `clients`, in any case, passes the checks yet creates no table |
| AddProfile.AddProfileDialog.constructor | src/add_profile_dialog.py:19-22 | the dialog keeps the profile list it is given |
| AddProfile.AddProfileDialog.Accept | src/add_profile_dialog.py:64-89 | the outcome is `Check`'s; only an accepted name runs `CREATE TABLE IF NOT EXISTS`; clients and food are unchanged |
| DeleteClient.DeleteClientDialog.constructor | src/delete_client_dialog.py:29-30 | the dialog holds the clients table as it was, and no row is selected |
| DeleteClient.DeleteClientDialog.SetClientIdx | src/delete_client_dialog.py:66-68 | stores the clicked row |
| DeleteClient.DeleteClientDialog.GetClientIdx | src/delete_client_dialog.py:70-72 | returns the row last stored |
| DeleteClient.DeleteClientDialog.Accept | src/delete_client_dialog.py:103-129 | no selection or a "No" changes nothing; otherwise the id of the selected snapshot row is deleted, and only from clients |
| DeleteFood.ColorOf | src/delete_food_dialog.py:43 | a food has a colour exactly when none of its three channels is NULL |
| DeleteFood.ColorRoundTrip | src/delete_food_dialog.py:111 | the colour a food was added with is the colour read from its row |
| DeleteFood.DeleteFoodDialog.constructor | src/delete_food_dialog.py:30-31 | the dialog holds the food table as it was, and no row is selected |
| DeleteFood.DeleteFoodDialog.SetFoodIdx | src/delete_food_dialog.py:72-74 | stores the clicked row |
| DeleteFood.DeleteFoodDialog.GetFoodIdx | src/delete_food_dialog.py:76-78 | returns the row last stored |
| DeleteFood.DeleteFoodDialog.Accept | src/delete_food_dialog.py:119-142 | no selection or a "No" changes nothing; otherwise the id of the selected snapshot row is deleted, and only from food |
| AddOrder.DialogWidth | src/add_order_dialog.py:78-87 | the width is the least value that is at least 512 and at least each label's minimum width |
| AddOrder.LabelName | src/add_order_dialog.py:108-109 | `split(": ")[1]`, what the message shows: it holds no `": "`, it is a prefix of the name the label shows, it is that whole name exactly when the name holds no `": "`, and otherwise the name goes on with `": "` right where it stops |
| AddOrder.SecondPieceOfLabel | src/add_order_dialog.py:108-109 | the facts `LabelName` states, about the second piece of a label |
| AddOrder.LabelNameStopsAtFirst | src/add_order_dialog.py:108-109 | when the name a label shows holds `": "`, the message shows that name up to its first `": "` and no further |
| AddOrder.LabelText | src/add_order_dialog.py:108-109 | the corrected counterpart of what these lines compute: the name a label shows, everything after its first `": "` |
| AddOrder.LabelOfName | src/add_order_dialog.py:108-109 | for a heading without `:`, the label shows the whole name, and `split(": ")[1]` gives the name exactly when the name holds no `": "` |
| AddOrder.AddOrderDialog.constructor | src/add_order_dialog.py:25-70 | no client or food is picked, the labels are `Client:` and `Nourriture:`, the width is 512 |
| AddOrder.AddOrderDialog.UpdateWidth | src/add_order_dialog.py:78-87 | sets the width from the labels' minimum widths and nothing else |
| AddOrder.AddOrderDialog.Accept | src/add_order_dialog.py:97-141 | without both a client and a food nothing changes; otherwise `(client_id, food_id, quantity, ISO date)` is appended to the profile's table, which must exist, the stored date text parses back to the picked date, and the message names the client and food by `split(": ")[1]` of their labels; clients and food are unchanged |
| SelectClient.Describe | src/select_client_dialog.py:100-102 | `first last, address, phone`; `DescribeHoldsSeparator` states when it holds `": "` |
| SelectClient.ClientLabel | src/select_client_dialog.py:100-102 | `Client: ` and the description; `ClientLabelShowsClient` and `ClientMessageName` state what the label and the message show |
| SelectClient.ClientLabelShowsClient | src/select_client_dialog.py:100-102 | the client label shows the whole `first last, address, phone` after `Client: ` |
| SelectClient.DescribeHoldsSeparator | src/select_client_dialog.py:100-102 | the description holds `": "` exactly when a field does or the first name ends with `:` |
| SelectClient.ClientMessageName | src/add_order_dialog.py:108 | the order message names the whole client exactly when no field holds `": "` and the first name does not end with `:` |
| SelectClient.ClientMessageStopsInAddress | src/add_order_dialog.py:108 | for a client whose names hold no `:` and whose address holds `": "`, the order message names the client as first name, last name and the address up to its first `": "` |
| SelectClient.ClientMessageCutShort | src/add_order_dialog.py:108 | the client `Anna`, `Smith`, `Rue: 5`, `555` is named `Anna Smith, Rue` in the order message, not by its full description |
| SelectClient.SelectClientDialog.constructor | src/select_client_dialog.py:30-31 | the dialog holds the clients table as it was, and no row is selected |
| SelectClient.SelectClientDialog.SetClientIdx | src/select_client_dialog.py:67-69 | stores the clicked row |
| SelectClient.SelectClientDialog.GetClientIdx | src/select_client_dialog.py:71-73 | returns the row last stored |
| SelectClient.SelectClientDialog.Accept | src/select_client_dialog.py:86-106 | no selection leaves the parent as it was; otherwise the parent gets the row's id and label and a new width; its food is untouched |
| SelectFood.FoodLabel | src/select_food_dialog.py:112 | `Nourriture: ` and the food name; `FoodLabelShowsFood` states what the label and the message show |
| SelectFood.FoodLabelShowsFood | src/select_food_dialog.py:112 | the food label shows the whole name after `Nourriture: `; the order message does so exactly when the name holds no `": "` |
| SelectFood.SelectFoodDialog.constructor | src/select_food_dialog.py:31-32 | the dialog holds the food table as it was, and no row is selected |
| SelectFood.SelectFoodDialog.SetFoodIdx | src/select_food_dialog.py:73-75 | stores the clicked row |
| SelectFood.SelectFoodDialog.GetFoodIdx | src/select_food_dialog.py:77-79 | returns the row last stored |
| SelectFood.SelectFoodDialog.Accept | src/select_food_dialog.py:98-117 | no selection leaves the parent as it was; otherwise the parent gets the row's id and label and a new width; its client is untouched |

## Left out

- Widgets, layouts, message boxes, window titles and the painting of table rows are not modelled. A message becomes an `Outcome`; the clicked row and the Yes/No answer are inputs.
- `aiosqlite` connections, `asyncio.run`, cursors and commits are replaced by the in-memory `Store.Database`. Connection lifetime, transactions and concurrent access to the file are not modelled. `CREATE TABLE` takes effect without a commit, because Python's `sqlite3` runs DDL outside an implicit transaction.
- `get_foreground_color` (src/delete_food_dialog.py:80-84, src/select_food_dialog.py:81-85) is left out: it is floating-point arithmetic that only picks a text colour.
- src/logger.py is not part of this model: it does file-system I/O and reads the clock. Logging calls are dropped.
- As written, `add_client_dialog.py`, `add_profile_dialog.py`, `delete_client_dialog.py`, `delete_food_dialog.py`, `select_client_dialog.py` and `main.py` import `getLogger` from src/logger.py, which defines only `get_logger` (src/logger.py:6). Importing those modules raises `ImportError`, and so does importing `add_order_dialog.py`, which imports `select_client_dialog`. The model assumes the import succeeds and models the dialogs' behaviour once loaded.
- src/main.py, src/profile_tab.py, src/profile_widget.py and src/main_widget.py are window plumbing and are not part of this model. `update_table` (src/add_order_dialog.py:141) is not part of this model either, as its code is in the parent tab.
- Text.Title: knows only the ASCII letters. Any other character is accepted but treated as a caseless non-letter, so a letter after an accented one is upper-cased: the model gives `Title("hélène") == "HéLèNe"` where Python's `title()` gives `"Hélène"`, and accented names are ordinary input in this French-language application. Likewise `Text.Strip` removes only ASCII whitespace, not Unicode spaces such as the no-break space.
- The 128-character limit of the name line edits (`setMaxLength`) is not modelled; the model accepts input of any length.
- AddProfile.AddProfileDialog.Accept: reports `ProfileAdded` and adds the table for any name that passes the blank and duplicate checks, even one that is not a plain SQL identifier, such as `mon profil`. For such a name the source's `CREATE TABLE IF NOT EXISTS Mon Profil (...)` raises a syntax error: no table is created and no success message is shown. See the next line.
- Store.Database.CreateProfileTable: treats any text as a table name. The source pastes the name into the SQL text, so a name that is not a valid SQL identifier (one with a space or a quote, say) would make the real statement fail or mean something else.
- Store.Database.InsertOrder: finds the profile's table by exact name, whereas SQLite ignores ASCII case. A failed insert, which raises an exception in the source, is the `NoSuchProfile` outcome here, with the database unchanged.
- The labels' minimum widths are never set in the source, so Qt reports 0 for them and the order dialog's width stays 512. The model keeps them as constants of the dialog and does not compute text widths.
- SQLite's fallback when the largest rowid is already the maximum 64-bit integer (a random free id) is not modelled; ids are unbounded integers.
- Foreign keys of the order tables are not enforced, as SQLite does not enforce them unless a pragma turns them on, which the code never does. Deleting a client or a food therefore leaves its orders in place.
- The spin box's range (1 to 99) and the date editor's range (from the day the dialog opened to 9999-12-31) are preconditions of `AddOrder.AddOrderDialog.Accept`, since the widgets cannot produce other values.
- The ids the select dialogs store are the ids of their snapshot; the model does not check that the client or food still exists when the order is added, and neither does the source.

## Findings

| source | as written | input that shows it | evidently intended | confidence | as-written member | corrected member |
|---|---|---|---|---|---|---|
| src/add_order_dialog.py:108-109 | the success message names the client and the food by `label.split(": ")[1]`, the piece between the first and second `": "` | a client with address `Rue: 5`: the label is `Client: Anna Smith, Rue: 5, 555` and the message names only `Anna Smith, Rue` | the message names everything after the label's heading, as the label itself shows it | medium, not executed | SelectClient.ClientMessageCutShort | SelectClient.ClientLabelShowsClient |

`AddOrder.LabelName` is the as-written extraction, and
`AddOrder.AddOrderDialog.Accept` reports the names through it, as the source
does. `AddOrder.LabelText` is the corrected extraction: the whole name after
the heading.
