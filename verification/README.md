# permissions_from_file, modelled in Dafny

This project models the core of the Drupal module `permissions_from_file`. The
module grants and revokes user roles according to text files. An administrator
stores a list of *mappings*. Each mapping pairs a file path with role ids. When a
user logs in, every mapping whose file contains the user's account name grants its
roles. A role that is held, granted by no mapping and not in the cached list of
*unmapped* roles (roles that no mapping names) is taken away.

The model is pure functions over immutable values:

- `wrappers.dfy` (`Wrappers`): `Option`.
- `seqs.dfy` (`Seqs`): duplicate-freedom, and `Without`, the order-preserving
  removal of a set of ids from a list.
- `php.dfy` (`Php`): the PHP rules the code relies on.
  - String truthiness: `""` and `"0"` are falsy.
  - `trim()` with its default character list.
- `settings.dfy` (`Settings`): the stored configuration. Each row of the
  `mappings` list may be malformed. `None` stands for "not a list".
- `check.dfy` (`PermissionsCheck`): `isInFile` and `updatePermissions` from
  `src/Services/PermissionsFromFileCheck.php`.
  - The server's files are a map from path to contents. A path that is not a key
    does not exist. A `None` value is a file that exists but whose read failed.
  - The pattern search of the account name is literal substring containment.
- `config.dfy` (`PermissionsConfig`): `updateUnmappedRoles` and `removeRole` from
  `src/Services/PermissionsFromFileConfig.php`.
  - The role ids of the site and the loaded mappings are inputs.
  - The value written back is the result.
- `settings_form.dfy` (`SettingsForm`): the data logic of
  `src/Form/PermissionsFromFileSettingsForm.php`:
  - the role options;
  - the `mappings_count` row counter with `addOne`/`removeOne`;
  - `validateForm`;
  - the normalisation in `submitForm`, followed by the recomputation of the
    unmapped roles.

  The lemma `SettingsForm.SubmitThenCheck` joins the three parts. It proves that
  after the form is saved, a login check never takes away a role that no stored
  mapping names, for an account whose roles are all roles of the site. A role the
  site does not know is never in the unmapped list, so the check may take it away.

Behaviour of the code worth knowing:

- The form describes each file as holding one username per line
  (`src/Form/PermissionsFromFileSettingsForm.php:117`). The check, however, looks for
  the account name anywhere in the file contents, not for a whole line. So
  `testuser` also matches a file listing `testuser2`.
- `isInFile` treats the path `"0"` like an empty path (PHP `empty()`), and
  contents `"0"` like empty contents.
- `removeRole` removes only the first occurrence of the role id in each row.
- `updatePermissions` saves the account on every run, whether or not its roles changed.
  Saving is not modelled: the result is what the account holds when it is saved.
- `submitForm` treats a missing `mappings` value as an empty list. It stores an
  empty mapping list and recomputes the unmapped roles. Only a value that is
  neither missing nor a list leaves the configuration untouched.

## Model

| member | source | states |
|---|---|---|
| `PermissionsCheck.Search` | src/Services/PermissionsFromFileCheck.php:62 | The search answers true exactly when the account name occurs as a contiguous piece of the file contents. |
| `PermissionsCheck.IsInFile` | src/Services/PermissionsFromFileCheck.php:57-75 | The result is null exactly when the path is falsy, the file is missing, it cannot be read, or its contents are falsy. Otherwise it is whether the name occurs in the contents. |
| `PermissionsCheck.AddNew` | src/Services/PermissionsFromFileCheck.php:98-113 | Appending only roles not yet present keeps the old list as a prefix. The result holds exactly the old and new roles. The appended part is exactly the new roles not already held, with no duplicates. Duplicate-freedom is preserved. |
| `PermissionsCheck.CollectFrom` | src/Services/PermissionsFromFileCheck.php:93-105 | Folding the rows holds exactly the roles already collected plus those of some well-formed row whose file check is true. A null or false check and a malformed row grant nothing. The result stays duplicate free. |
| `PermissionsCheck.RolesToApply` | src/Services/PermissionsFromFileCheck.php:85-106 | `roles_to_apply` has no duplicates. It contains exactly the roles granted through the stored mappings, and none when the mappings value is not a list. |
| `PermissionsCheck.Prune` | src/Services/PermissionsFromFileCheck.php:117-125 | A held role is kept exactly when it is to be applied or is unmapped. It is removed exactly when it is neither. Kept and removed together account for every held role. Nothing is removed when every held role is protected. |
| `PermissionsCheck.UpdatePermissionsClosedForm` | src/Services/PermissionsFromFileCheck.php:83-132 | Added are exactly the applied roles the account lacked, each once, and every applied role ends up held. With an unmapped list, the final roles are exactly `apply ∪ (initial ∩ unmapped)`, and only roles that are neither applied nor unmapped are removed. Without one, nothing is removed and the roles are the old ones plus the additions. |
| `PermissionsCheck.UpdateIdempotent` | src/Services/PermissionsFromFileCheck.php:109-125 | A second run with the same files and configuration adds nothing, removes nothing and leaves the roles as they are. |
| `PermissionsCheck.UpdateOrderIndependent` | src/Services/PermissionsFromFileCheck.php:92-106 | Two mapping lists with the same rows, in any order, give the same final role set. |
| `PermissionsCheck.IsInFileExample` | tests/src/Unit/Services/PermissionsFromFileCheckTest.php:76-82 | A file containing "testuser\nanotheruser" answers true for `testuser`. A path that does not exist answers null. |
| `PermissionsCheck.UpdatePermissionsExample` | tests/src/Unit/Services/PermissionsFromFileCheckTest.php:87-108 | With the editors file listing the user, the admins file not listing them, and unmapped [anonymous, authenticated], `editor` is added and `administrator` removed. |
| `PermissionsCheck.EditorsApply` | tests/src/Unit/Services/PermissionsFromFileCheckTest.php:88-96 | In that scenario only the editors row grants a role, so `roles_to_apply` is [editor]. |
| `PermissionsCheck.PruneExample` | tests/src/Unit/Services/PermissionsFromFileCheckTest.php:97-99 | The removal loop over [authenticated, administrator, editor] keeps authenticated and editor and removes administrator. |
| `PermissionsCheck.EditorApplied` | tests/src/Unit/Services/PermissionsFromFileCheckTest.php:97-101 | With [editor] to apply, the account goes from [authenticated, administrator] to [authenticated, editor], through one addition and one removal. |
| `PermissionsConfig.UnsetRoles` | src/Services/PermissionsFromFileConfig.php:56-61 | Unsetting each role of a row leaves the remaining ids, in order, less the roles the row names. |
| `PermissionsConfig.UnsetMapped` | src/Services/PermissionsFromFileConfig.php:52-63 | The loop over the rows leaves the ids, in order, less every role a well-formed row names. |
| `PermissionsConfig.UpdateUnmappedRoles` | src/Services/PermissionsFromFileConfig.php:42-69 | The unmapped list is the site's role ids in storage order, less the mapped roles. An id is in it exactly when it is a site role and no well-formed row names it. It keeps duplicate-freedom. A non-list mappings value leaves every role unmapped. |
| `Settings.MappedRolesMembers` | src/Services/PermissionsFromFileConfig.php:52-56 | A role is mapped exactly when some well-formed row names it. |
| `PermissionsConfig.UpdateUnmappedRolesExample` | tests/src/Unit/Services/PermissionsFromFileConfigTest.php:75-88 | With the roles [anonymous, authenticated, editor, administrator] and one mapping naming editor, the list written is [anonymous, authenticated, administrator]. |
| `PermissionsConfig.WithoutEditor` | tests/src/Unit/Services/PermissionsFromFileConfigTest.php:79-82 | Dropping editor from the test's four roles keeps the other three in order. |
| `PermissionsConfig.IndexOf` | src/Services/PermissionsFromFileConfig.php:87 | `array_search` fails exactly when the id is absent. Otherwise it gives a position holding the id with no earlier occurrence. |
| `PermissionsConfig.RemoveFirst` | src/Services/PermissionsFromFileConfig.php:87-89 | The row's roles lose exactly one occurrence of the id (as a multiset), and are unchanged when it is absent. |
| `PermissionsConfig.RemoveFirstInsert` | src/Services/PermissionsFromFileConfig.php:87-89 | Removing the first occurrence undoes inserting the id before a part that lacks it. The other roles keep their order. |
| `PermissionsConfig.RemoveFirstMembers` | src/Services/PermissionsFromFileConfig.php:87-89 | In a duplicate-free role list, the removal drops the id altogether and nothing else. |
| `PermissionsConfig.RemoveFirstExample` | tests/src/Unit/Services/PermissionsFromFileConfigTest.php:95-98 | Removing administrator from [editor, administrator] gives [editor], and from [administrator] gives []. |
| `PermissionsConfig.RemoveRoleFromRow` | src/Services/PermissionsFromFileConfig.php:85-90 | A row keeps its shape and file path. A row with roles loses one occurrence of the id. Any other row, or one without the id, is untouched. |
| `PermissionsConfig.RemoveRoleFromRows` | src/Services/PermissionsFromFileConfig.php:84-91 | The loop keeps the number of rows, and each output row is its input row with the role removed. |
| `PermissionsConfig.RemoveRole` | src/Services/PermissionsFromFileConfig.php:81-94 | Nothing is written exactly when the stored mappings are not a list. Otherwise the same number of rows is written, in order, each with the role removed. |
| `PermissionsConfig.RemoveRoleUnmaps` | src/Services/PermissionsFromFileConfig.php:81-94 | When no row names a role twice, after the removal the deleted role is mapped by no row and every other mapped role is still mapped. |
| `PermissionsConfig.RemoveRoleExample` | tests/src/Unit/Services/PermissionsFromFileConfigTest.php:93-111 | Removing administrator from [{one,[editor,administrator]},{two,[administrator]}] writes [{one,[editor]},{two,[]}]. The emptied row is kept. |
| `Php.Trim` | src/Form/PermissionsFromFileSettingsForm.php:247 | The trimmed path begins and ends with no trim character. It is empty exactly when the input was all trim characters. |
| `Php.TrimDecompose` | src/Form/PermissionsFromFileSettingsForm.php:247 | The trimmed path is a middle slice of the input, and everything cut off on either side is trim characters. |
| `Php.TrimPadding` | src/Form/PermissionsFromFileSettingsForm.php:247 | Trimming a string with no trim character at either end, padded with trim characters, returns exactly that string. |
| `Php.TrimIdempotent` | src/Form/PermissionsFromFileSettingsForm.php:247 | Trimming a trimmed path changes nothing. |
| `SettingsForm.RoleOptions` | src/Form/PermissionsFromFileSettingsForm.php:64-70 | The options are exactly the loaded role ids other than anonymous and authenticated, without duplicates when the ids had none. |
| `SettingsForm.InitialCount` | src/Form/PermissionsFromFileSettingsForm.php:62-77 | The first row count is the least number that is at least 1 and at least the number of stored mappings. A non-list value counts as 1. |
| `SettingsForm.BuildCount` | src/Form/PermissionsFromFileSettingsForm.php:73-77 | An unset counter becomes the initial row count: the number of stored mappings, but at least one. A counter already set is left as it is. |
| `SettingsForm.AddOne` | src/Form/PermissionsFromFileSettingsForm.php:177-183 | A numeric counter goes up by one and the form is rebuilt. Anything else is untouched. |
| `SettingsForm.RemoveOne` | src/Form/PermissionsFromFileSettingsForm.php:188-194 | While the remove button is shown (a numeric counter above one), the counter goes down by one and the form is rebuilt. Otherwise the state is untouched: an unset, non-numeric or single-row counter stays as it is, with no rebuild. A counter of at least one stays at least one. |
| `SettingsForm.RunKeepsOneRow` | src/Form/PermissionsFromFileSettingsForm.php:177-194 | From a count of at least one, any sequence of add and remove clicks keeps the count at least one. Each click adds at most one row. |
| `SettingsForm.BuiltCounterKeepsOneRow` | src/Form/PermissionsFromFileSettingsForm.php:73-77 | Whatever was stored, the counter set up on first build stays at one row or more under any clicks. |
| `SettingsForm.RemoveUndoesAdd` | src/Form/PermissionsFromFileSettingsForm.php:177-194 | Remove undoes add on any count of at least one. |
| `SettingsForm.AddUndoesRemove` | src/Form/PermissionsFromFileSettingsForm.php:161-194 | Add undoes remove whenever the remove button is shown. |
| `SettingsForm.RemoveActsWhenShown` | src/Form/PermissionsFromFileSettingsForm.php:161-194 | For a numeric count, `removeOne` changes the counter exactly when the remove button is shown (count above one). |
| `SettingsForm.CounterExample` | tests/src/Unit/Form/PermissionsFromFileSettingsFormTest.php:196-215 | Add takes 1 to 2 and remove takes 2 to 1, both rebuilding. Remove leaves 1 alone. |
| `SettingsForm.SelectedKeysMembers` | src/Form/PermissionsFromFileSettingsForm.php:216 | A role is selected exactly when some checkbox with that key has a truthy value. Distinct keys give a duplicate-free selection. |
| `SettingsForm.SelectedKeysAppend` | src/Form/PermissionsFromFileSettingsForm.php:254 | Selection keeps the checkboxes' order: it distributes over concatenation. |
| `SettingsForm.RowErrorsMembers` | src/Form/PermissionsFromFileSettingsForm.php:208-233 | A row's errors all name that row. It gets the both-or-neither error exactly when one of trimmed path and selected roles is empty and the other is not. It gets the not-found error, with its trimmed path, exactly when that path is non-empty and does not exist. |
| `SettingsForm.ValidateFrom` | src/Form/PermissionsFromFileSettingsForm.php:207-234 | Over the remaining rows, each error names one of them. Each row gets exactly the errors its own checks call for. |
| `SettingsForm.Validate` | src/Form/PermissionsFromFileSettingsForm.php:199-235 | A missing or non-list value raises nothing. For a list, each row is flagged for both-or-neither and for a missing file exactly when those checks fail, and no error names a row that does not exist. |
| `SettingsForm.ValidateMissingRoleExample` | tests/src/Unit/Form/PermissionsFromFileSettingsFormTest.php:159-169 | A path with no ticked role flags exactly one form element, whether or not the file exists. |
| `SettingsForm.ValidateInvalidPathExample` | tests/src/Unit/Form/PermissionsFromFileSettingsFormTest.php:144-154 | A ticked role with a path that does not exist raises exactly one error, the not-found error for that row. |
| `SettingsForm.NormalizeAll` | src/Form/PermissionsFromFileSettingsForm.php:246-254 | Every submitted row is normalised, in order, to its trimmed path and selected roles. |
| `SettingsForm.DropBlankMembers` | src/Form/PermissionsFromFileSettingsForm.php:256-264 | A normalised row is kept exactly when it is not fully empty. |
| `SettingsForm.DropBlankAppend` | src/Form/PermissionsFromFileSettingsForm.php:246-265 | Dropping empty rows keeps the input order: it distributes over concatenation. |
| `SettingsForm.CleanMembers` | src/Form/PermissionsFromFileSettingsForm.php:244-265 | A stored row is exactly the normalised form of some submitted row that is not fully empty. |
| `SettingsForm.CleanStored` | src/Form/PermissionsFromFileSettingsForm.php:247-264 | Every stored row has a path or a role, and its path has no surrounding trim characters. |
| `SettingsForm.CleanAppend` | src/Form/PermissionsFromFileSettingsForm.php:244-265 | The stored rows keep the submitted order: cleaning distributes over concatenation. |
| `SettingsForm.ValidatedRowsComplete` | src/Form/PermissionsFromFileSettingsForm.php:219-233 | If validation raised nothing, every stored row has a non-empty path that exists and at least one role. |
| `SettingsForm.ToRow` | src/Form/PermissionsFromFileSettingsForm.php:261-264 | A stored mapping reads back as a well-formed row naming the same roles. |
| `SettingsForm.MappedRolesOfMappings` | src/Form/PermissionsFromFileSettingsForm.php:267-271 | The roles mapped by the stored list are exactly those some stored mapping names. |
| `SettingsForm.SubmitForm` | src/Form/PermissionsFromFileSettingsForm.php:240-275 | Nothing is saved exactly when the value is not a list. A missing value stores no mappings and leaves every role unmapped. For a list of rows, the stored mappings are exactly the cleaned rows: each submitted row trimmed and reduced to its selected roles, blank rows dropped, order kept. So at most one mapping per submitted row is stored, none empty, each with a trimmed path. The unmapped roles are then exactly the site's roles that no stored mapping names, without duplicates when the site's roles had none. |
| `SettingsForm.SubmitFormExample` | tests/src/Unit/Form/PermissionsFromFileSettingsFormTest.php:174-191 | [{/valid/path.txt, {editor: editor}}, {"", []}] is stored as [{/valid/path.txt, [editor]}]. |
| `SettingsForm.SubmitThenCheck` | src/Services/PermissionsFromFileCheck.php:115-125 | For an account whose held roles are all site roles: after the form is saved, a login check leaves the user with exactly the roles the stored mappings grant, plus the roles they held that no stored mapping names. |

## Left out

- File I/O: `file_exists` and `file_get_contents` are replaced by a map from path to optional contents.
- `preg_match` semantics: the account name is searched for as a literal substring.
  - A name containing regular-expression metacharacters or `/` behaves differently in the module.
- Loose PHP comparison: `in_array`, `array_search` and `array_key_exists` compare role ids with strict string equality.
  - Numeric role ids, which PHP turns into integer keys, are not modelled.
- Logger alerts (`PermissionsFromFileCheck.php` lines 66, 71 and 128): they only log.
- Config factory, entity storage, `User::save()` and configuration `save()`.
  - Loaded values are inputs and written values are results.
- Call order of `isInFile`: `updatePermissions` calls `isInFile` once per role of a row.
  - With a fixed file map every such call gives the same answer, so the model asks once per row.
  - A file that changes between calls is not modelled.
- Role order after `addRole`/`removeRole`: added roles are appended and removed roles deleted by value.
  - Drupal's special handling of the locked `authenticated` role is not modelled.
- PHP array keys: the model uses lists, which has these consequences.
  - `removeRole` leaves a gap in a row's keys after `unset`. The model closes it.
  - Rows of the submitted form are numbered by position. The form's own keys are not used.
  - A scalar `roles` value is wrapped under the integer key 0. The model writes that key as the string "0".
  - `removeRole` reads only the rows at keys 0 to count-1 (`src/Services/PermissionsFromFileConfig.php:84-85`). Stored mappings with other keys would have rows skipped there. The model visits every row.
- Bytes and characters: PHP compares strings byte by byte, and the model compares characters. `trim` and the substring search agree for UTF-8 contents, because the trimmed characters are ASCII and UTF-8 substring matches align with character boundaries.
- Non-string scalars: a `file_path` that is an integer or other non-string is outside the model. It would be cast with `(string)`.
- Other `roles` values: a `roles` value in the stored configuration that is a scalar rather than a list is outside the model.
- Form plumbing: render arrays, AJAX callbacks, translations, dependency injection and `parent::` calls.
- Form row defaults: the default values `buildForm` shows in each row (lines 104-132) are not modelled.
- `FormState` error bookkeeping: `SettingsForm.FlaggedRows` stands for the fact that one error is recorded per element. The messages themselves are not modelled.
- `mappings_count` values: a numeric string counter is treated as a number. Non-numeric values are one opaque case.
- Integer width: counts and positions are unbounded integers. PHP's integer overflow cannot occur at realistic sizes.
