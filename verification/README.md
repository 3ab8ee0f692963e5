# CanvasMidterm core, modelled in Dafny

CanvasMidterm is a small course site built on a browser-side record store.
This project models its logic in Dafny and proves properties of that model.

- **`useApi(tableName)`**: the store. Each table is an ordered list of flat
  records carrying an `id`. Every operation reads the whole table and, for
  writes, stores the whole table back.
- **`AuthContext`**: login, registration, logout and the startup restore.
- **Pages on top of the store**: the modules page, the pages page, the
  page-types page, the announcements page and the profile page.

Every operation is a pure function from the table (or the page state) it
reads to the table (or state) it leaves. Both the list on screen and the
stored table are kept where they can disagree. The modules page keeps both
in `ModuleList.Modules`, and the page-types page keeps both in
`PageTypes.Fetched`.

Files:

- `wrappers.dfy`: `Option` and `Result`.
- `seqs.dfy`: the generic list operations the pages use: `indexOf`,
  `filter(x => x !== v)`, `[...new Set(xs)]`, and swapping with a neighbour.
- `text.dfy`: `trim` blankness, ASCII `toLowerCase`, `String(n)` and the
  default string sort.
- `store.dfy`: records, queries and every `useApi` operation.
- `auth.dfy`: the session, `login`, `register`, `logout` and the startup restore.
- `modules.dfy`: `ModulesPage`. It covers the order sort, module save and
  delete, page add, remove and reorder, module reorder, and what a visitor sees.
- `pages.dfy`: `PagesPage`. It covers grouping by page type, the page-type
  options, page save and page delete.
- `pagetypes.dfy`: `PageTypesPage`. It covers dedup by name, the required
  types, and save and delete with their guards.
- `announcements.dfy`: `AnnouncementsPage`. It covers the dialog, the
  save-enabled test, save and delete.
- `profile.dfy`: `ProfilePage`. It covers the initial form, the merge on
  submit and the re-login.

Caller-supplied parameters stand in for three things the source reads from
its environment:

- `Math.random()` ids become a draw `roll < 100000000`. The id is the
  decimal string of the draw.
- `new Date().toISOString()` becomes a string `now`.
- The saved `localStorage` snapshot becomes an `Option`.

`update` on an id that no record has writes `items[-1]`. That is a property
of the array, which the JSON form of the table does not keep. The model's
`Store.Update` therefore returns `NotFound` and writes nothing. No handler
sees an error there: each one continues as if the write had happened, with
the table unchanged.

## Model

| member | source | states |
|---|---|---|
| Store.GetAll | CanvasMidterm/src/hooks/useApi.js:5-7 | the stored table, or the empty table when none is stored |
| Store.GetById | CanvasMidterm/src/hooks/useApi.js:18-21 | nothing exactly when no record has the id; otherwise the first record in table order that has it |
| Store.GetByField | CanvasMidterm/src/hooks/useApi.js:22-25 | nothing exactly when no record's field strictly equals the value; otherwise the first record whose field does |
| Store.GroupByPartition | CanvasMidterm/src/hooks/useApi.js:8-17 | the group keys are the distinct field values in order of first occurrence; each group holds exactly the records with its key, in table order; the group sizes add up to the table length |
| Store.GroupByEachOnce | CanvasMidterm/src/hooks/useApi.js:10-15 | every record lies in a group, and only in the group keyed by its own field value |
| Store.NewIdInjective | CanvasMidterm/src/hooks/useApi.js:27 | distinct draws give distinct ids |
| Store.Create | CanvasMidterm/src/hooks/useApi.js:26-32 | the table grows by one record `{ id, ...data }` at the end, earlier records unchanged; the returned id is the draw's decimal digits |
| Store.CreateThenGet | CanvasMidterm/src/hooks/useApi.js:26-31 | with an unused id, reading back by the returned id gives exactly `{ id, ...data }` |
| Store.StampOwnId | CanvasMidterm/src/hooks/useApi.js:44 | a record that already carries the id is stored unchanged by `{ id, ...data }` |
| Store.BulkCreate | CanvasMidterm/src/hooks/useApi.js:33-40 | one stamped record per input element, in input order, after all existing records, which stay unchanged |
| Store.BulkCreateIsRepeatedCreate | CanvasMidterm/src/hooks/useApi.js:33-40 | creating a list in bulk is the same as creating its elements one after another |
| Store.Update | CanvasMidterm/src/hooks/useApi.js:41-46 | NotFound exactly when no record has the id; otherwise only the first position with the id is replaced by `{ id, ...data }`, and the length and every other position are unchanged |
| Store.UpdateThenGet | CanvasMidterm/src/hooks/useApi.js:41-46 | reading back gives `{ id, ...data }`: the fields absent from `data` are gone |
| Store.UpdateGetOther | CanvasMidterm/src/hooks/useApi.js:43-44 | every other id reads back as before |
| Store.UpdateKeepsIds | CanvasMidterm/src/hooks/useApi.js:43-44 | an update that keeps the id leaves the id column as it was |
| Store.Delete | CanvasMidterm/src/hooks/useApi.js:47-51 | every record with the id is removed; the others remain in their relative order; an absent id leaves the table equal |
| Store.DeleteThenGet | CanvasMidterm/src/hooks/useApi.js:47-51 | afterwards the id is not found, and the table shrank by exactly the number of records that had it |
| Store.DeleteAll | CanvasMidterm/src/hooks/useApi.js:52-54 | the table is empty and no id is found |
| Text.BlankIff | CanvasMidterm/src/pages/PagesPage.jsx:133 | `!s.trim()` holds exactly when every character is whitespace or a line terminator |
| Text.DecimalRoundTrip | CanvasMidterm/src/hooks/useApi.js:27 | the string `String(n)` is all digits, and reading it back gives `n` |
| Text.Sort | CanvasMidterm/src/pages/PagesPage.jsx:88-90 | the result is in ascending order and is a permutation of the input |
| Seqs.Distinct | CanvasMidterm/src/pages/PagesPage.jsx:88-90 | no value twice, exactly the input's values, kept in input order |
| Seqs.DistinctFirstOccurrenceOrder | CanvasMidterm/src/pages/PagesPage.jsx:88-90 | values appear in the order of their first occurrence in the input |
| Seqs.Values | CanvasMidterm/src/pages/ModulesPage.jsx:347-349 | the present values in order: the value at position i lands right after the values present before it, and the result holds exactly as many values as are present |
| Seqs.IndexOf | CanvasMidterm/src/pages/ModulesPage.jsx:235 | -1 exactly when the value is absent; otherwise the first position holding it |
| Seqs.RemoveAll | CanvasMidterm/src/pages/ModulesPage.jsx:200 | every occurrence of the value is gone; every other value is kept, in order; an absent value leaves the list equal |
| Seqs.Neighbour | CanvasMidterm/src/pages/ModulesPage.jsx:211-214 | a swap partner exists only inside the list and is adjacent to the moved position |
| Seqs.Move | CanvasMidterm/src/pages/ModulesPage.jsx:215-219 | "up" at the first position and "down" at the last change nothing; otherwise only the two neighbours swap; the result is a permutation |
| Seqs.MoveKeepsNoDup | CanvasMidterm/src/pages/ModulesPage.jsx:215-219 | a swap keeps distinct elements distinct |
| Auth.Restore | CanvasMidterm/src/context/AuthContext.jsx:11-17 | loading ends; a saved snapshot becomes the session, otherwise the session is kept |
| Auth.RestoreFromStart | CanvasMidterm/src/context/AuthContext.jsx:7-17 | from the initial state the session is exactly the saved snapshot, if any |
| Auth.Login | CanvasMidterm/src/context/AuthContext.jsx:19-34 | true exactly when some user has both that email and that password; the session becomes the first such user; on false the session is unchanged |
| Auth.LoginUniqueEmail | CanvasMidterm/src/context/AuthContext.jsx:22-28 | when no other user has the email, the login signs in exactly the user with it |
| Auth.Logout | CanvasMidterm/src/context/AuthContext.jsx:37-40 | nobody is signed in; loading is untouched |
| Auth.NewUser | CanvasMidterm/src/context/AuthContext.jsx:49-56 | the record holds exactly the five given fields and `userType` "Student" |
| Auth.RegisterAsWritten | CanvasMidterm/src/context/AuthContext.jsx:42-59 | false exactly when the email is taken, with nothing changed; on success the new user `{ id, ...user }` is appended after the unchanged table, the session holds the bare id string that `create` returns, and the loading flag is kept |
| Auth.RegisterAsWrittenLosesUser | CanvasMidterm/src/context/AuthContext.jsx:57-58 | after a successful registration the session is not the stored user; it is a bare string and carries no user type |
| Auth.Register | CanvasMidterm/src/context/AuthContext.jsx:42-59 | false exactly when the email is taken, with nothing changed; otherwise exactly one user is appended, with the five fields, "Student" and a fresh id, and that record is the session |
| Auth.RegisterThenLogin | CanvasMidterm/src/context/AuthContext.jsx:42-59 | after a registration, logging in with the same email and password succeeds and yields the same session |
| Profile.Or | CanvasMidterm/src/pages/ProfilePage.jsx:59-62 | `x \|\| fallback`: the value when it is present and truthy, otherwise the fallback |
| Profile.InitialForm | CanvasMidterm/src/pages/ProfilePage.jsx:56-65 | with nobody signed in the form stays empty; otherwise truthy text fields are copied, missing ones become "", and the user type defaults to "Student" |
| Profile.FormFields | CanvasMidterm/src/pages/ProfilePage.jsx:45-50 | the form holds exactly the four editable fields |
| Profile.Merged | CanvasMidterm/src/pages/ProfilePage.jsx:81-84 | the saved user keeps every field except the four editable ones, which come from the form |
| Profile.StoreMerged | CanvasMidterm/src/pages/ProfilePage.jsx:81-85 | the merged user is written exactly when the session holds a record whose id is stored; then only that position changes, to the merged user |
| Profile.SubmitProfile | CanvasMidterm/src/pages/ProfilePage.jsx:75-91 | nobody signed in is refused; otherwise the merged user is written exactly when the session holds a record whose id is stored, and only that position changes; a miss leaves the table equal; either way the session becomes what the re-login with the held email and password gives |
| Profile.SubmitKeepsIdentity | CanvasMidterm/src/pages/ProfilePage.jsx:81-85 | a submit never changes the stored id, email or password |
| Profile.SubmitThenSessionIsStored | CanvasMidterm/src/pages/ProfilePage.jsx:85-86 | when the email is unique, the session after the re-login is exactly the freshly stored record |
| Profile.AsWrittenRegisterBlocksProfile | CanvasMidterm/src/pages/ProfilePage.jsx:85 | after the registration as written, the form starts with empty names and the default type "Student", and a submit writes nothing |
| Profile.RegisterThenProfileSaves | CanvasMidterm/src/pages/ProfilePage.jsx:81-86 | after the corrected registration, a profile submit writes the merged user |
| ModuleList.SortByOrder | CanvasMidterm/src/pages/ModulesPage.jsx:123 | the loaded list is a permutation of the stored table, in non-decreasing `order` |
| ModuleList.SortStable | CanvasMidterm/src/pages/ModulesPage.jsx:123 | modules with equal order keep their table order |
| ModuleList.SortOrdered | CanvasMidterm/src/pages/ModulesPage.jsx:123 | a table already in order is listed as stored |
| ModuleList.Refetch | CanvasMidterm/src/pages/ModulesPage.jsx:121-123 | after a refetch the list is the stored table, sorted by order |
| ModuleList.RefetchAgrees | CanvasMidterm/src/pages/ModulesPage.jsx:121-123 | with unique ids, every module of a refetched list is exactly what the store holds under its id |
| ModuleList.NewModule | CanvasMidterm/src/pages/ModulesPage.jsx:158-163 | a new module holds exactly title, status, an empty page list and the given order |
| ModuleList.Retitled | CanvasMidterm/src/pages/ModulesPage.jsx:152-156 | the current module with only title and status replaced; every other field kept |
| ModuleList.EditModule | CanvasMidterm/src/pages/ModulesPage.jsx:150-156 | editing keeps id, pages and order and replaces only title and status; a module no longer stored leaves the table unchanged; other ids read back unchanged |
| ModuleList.AppendModule | CanvasMidterm/src/pages/ModulesPage.jsx:158-163 | one module is appended under a fresh id with exactly title, status, an empty page list and the given order; earlier records unchanged |
| ModuleList.CreateModule | CanvasMidterm/src/pages/ModulesPage.jsx:157-163 | as written: one module is appended with an empty page list, and its order is the number of modules on screen |
| ModuleList.CreateOrder | CanvasMidterm/src/pages/ModulesPage.jsx:162 | corrected: the new order is above every listed order and at least the module count |
| ModuleList.CreateOrderAgrees | CanvasMidterm/src/pages/ModulesPage.jsx:162 | when every listed order is below the count, the corrected order equals the count used by the source |
| ModuleList.CreateModuleCorrected | CanvasMidterm/src/pages/ModulesPage.jsx:157-163 | corrected: one module is appended with an empty page list and an order above every listed order |
| ModuleList.SaveModule | CanvasMidterm/src/pages/ModulesPage.jsx:149-167 | as written: a blank title writes nothing (the Save button is disabled, line 442); otherwise the edit, or the create with the count as order, is followed by a refetch |
| ModuleList.SaveModuleCorrected | CanvasMidterm/src/pages/ModulesPage.jsx:149-167 | the same save with the corrected order for a new module |
| ModuleList.CreateAsWrittenListedBefore | CanvasMidterm/src/pages/ModulesPage.jsx:157-166 | as written, every module on screen whose order is above the count is listed after the newly created module |
| ModuleList.OrderedBefore | CanvasMidterm/src/pages/ModulesPage.jsx:123 | in the sorted list, a module with a lower order comes before one with a higher order |
| ModuleList.CreateListsLast | CanvasMidterm/src/pages/ModulesPage.jsx:157-166 | with the corrected order, the created module is listed after every module listed before |
| ModuleList.DeleteModule | CanvasMidterm/src/pages/ModulesPage.jsx:169-172 | the id is gone; every other module is kept in its stored order, and the table shrinks by exactly the number of modules with the id; the refetched list holds exactly the remaining modules |
| ModuleList.ListedPages | CanvasMidterm/src/pages/ModulesPage.jsx:187 | `module.pages \|\| []`: the page list, or empty when the field is missing |
| ModuleList.WithPages | CanvasMidterm/src/pages/ModulesPage.jsx:189-190 | `{ ...module, pages }`: the new list, with the id and every other field unchanged |
| ModuleList.WritePages | CanvasMidterm/src/pages/ModulesPage.jsx:188-192 | only the record under the id is written, and it is the copy on screen with the new page list; the list is refetched |
| ModuleList.AddPage | CanvasMidterm/src/pages/ModulesPage.jsx:184-195 | the page id is appended at the end of the module's list, even if already present; no other module changes; an unlisted module changes nothing |
| ModuleList.RemovePage | CanvasMidterm/src/pages/ModulesPage.jsx:197-207 | every occurrence of the page id is removed, and the other ids keep their order; other modules are untouched |
| ModuleList.ReorderPage | CanvasMidterm/src/pages/ModulesPage.jsx:232-250 | the first occurrence swaps with its neighbour; no-ops at the boundaries; the list stays a permutation; only the owning module is written |
| ModuleList.AddPageKeepsStored | CanvasMidterm/src/pages/ModulesPage.jsx:184-191 | when the list agrees with the store, adding a page changes no stored field except `pages` |
| ModuleList.VisibleModules | CanvasMidterm/src/pages/ModulesPage.jsx:270-273 | a teacher sees every module; anybody else sees exactly the published ones, in list order |
| ModuleList.Resolved | CanvasMidterm/src/pages/ModulesPage.jsx:347-348 | each listed page id is looked up by id in the pages table |
| ModuleList.PageEntries | CanvasMidterm/src/pages/ModulesPage.jsx:347-349 | one entry per listed id that resolves, in list order: the page of the i-th id is shown right after the pages of the earlier ids that resolve; only stored pages are shown |
| ModuleList.PageEntriesAllFound | CanvasMidterm/src/pages/ModulesPage.jsx:347-349 | when every id resolves, there is one entry per id, in list order |
| ModuleList.Renumber | CanvasMidterm/src/pages/ModulesPage.jsx:223-224 | every module's order becomes its position; all other fields are unchanged |
| ModuleList.WriteBack | CanvasMidterm/src/pages/ModulesPage.jsx:222-226 | the per-module updates keep the table length and its id column |
| ModuleList.WriteBackStores | CanvasMidterm/src/pages/ModulesPage.jsx:222-226 | with distinct stored ids, each written module reads back exactly as written |
| ModuleList.WriteBackOthers | CanvasMidterm/src/pages/ModulesPage.jsx:222-226 | a module that was not written reads back as before |
| ModuleList.MoveKeepsIds | CanvasMidterm/src/pages/ModulesPage.jsx:215-219 | a swap keeps ids unique and stored |
| ModuleList.RenumberKeepsIds | CanvasMidterm/src/pages/ModulesPage.jsx:223-224 | renumbering keeps ids unique and stored |
| ModuleList.ReorderModuleAsWritten | CanvasMidterm/src/pages/ModulesPage.jsx:209-230 | no-ops at the boundaries; otherwise the list is swapped with its old orders kept, and the store gets every module with order equal to its new position |
| ModuleList.ReorderAsWrittenIsStale | CanvasMidterm/src/pages/ModulesPage.jsx:222-228 | as written, the moved module is stored with its new position, while the copy on screen still shows the old order |
| ModuleList.ReorderAsWrittenThenAddPage | CanvasMidterm/src/pages/ModulesPage.jsx:184-228 | as written, adding a page to the module just moved stores its old position again |
| ModuleList.ReorderModule | CanvasMidterm/src/pages/ModulesPage.jsx:209-230 | corrected: the list shows each module's order as its position, only the two neighbours swap, and the store is written from that list |
| ModuleList.ReorderModuleAgrees | CanvasMidterm/src/pages/ModulesPage.jsx:209-230 | after the corrected reorder, every module on screen is exactly what the store holds |
| ModuleList.ReorderThenAddPage | CanvasMidterm/src/pages/ModulesPage.jsx:184-228 | after the corrected reorder, adding a page keeps the module's new position |
| ModuleList.AddPageKeepsOrder | CanvasMidterm/src/pages/ModulesPage.jsx:184-191 | when the list agrees with the store, adding a page stores the order shown on screen |
| PageList.GroupPagesByType | CanvasMidterm/src/pages/PagesPage.jsx:97-106 | there is one non-empty group per distinct page type, in order of first occurrence; each group holds exactly the pages of its type, in table order; the sizes add up to the page count |
| PageList.ListedUnderType | CanvasMidterm/src/pages/PagesPage.jsx:97-104 | every page is listed under its own page type |
| PageList.Names | CanvasMidterm/src/pages/PagesPage.jsx:89 | exactly the string names of the stored types |
| PageList.TypeOptions | CanvasMidterm/src/pages/PagesPage.jsx:87-91 | the options are sorted, without repeats, and their set is exactly the set of stored type names |
| PageList.OpenDialog | CanvasMidterm/src/pages/PagesPage.jsx:108-118 | a new page starts with empty fields; an existing one starts with its own string title and type |
| PageList.EditedPage | CanvasMidterm/src/pages/PagesPage.jsx:131 | `{ ...selectedPage, ...newPageData }`: the id and every extra field survive, and title and type are replaced |
| PageList.SavePage | CanvasMidterm/src/pages/PagesPage.jsx:127-156 | a blank title fails first, then a missing type, neither writing; a create appends exactly title, type and a fresh id; an edit of a page with a string id succeeds, changes only the position of that id, and leaves the table equal when the id is no longer stored |
| PageList.CreatedPageListed | CanvasMidterm/src/pages/PagesPage.jsx:143-149 | a created page reads back by its new id with exactly its fields, and is listed under its type |
| PageList.EditedPageListed | CanvasMidterm/src/pages/PagesPage.jsx:146-149 | an edited page reads back as the selected page with the new title and type, and is listed under the new type |
| PageList.DeletePageUnlisted | CanvasMidterm/src/pages/PagesPage.jsx:158-161 | after a delete the id is not found, and no group lists a page with it |
| PageTypes.RequiredDistinct | CanvasMidterm/src/pages/PageTypesPage.jsx:45-50 | the four required names are distinct |
| PageTypes.Dedup | CanvasMidterm/src/pages/PageTypesPage.jsx:67-74 | the names kept are the distinct names in order of first occurrence; the kept records are a subsequence of the table |
| PageTypes.DedupKeepsFirst | CanvasMidterm/src/pages/PageTypesPage.jsx:67-74 | each kept record is the first record of the table with its name |
| PageTypes.StepCreates | CanvasMidterm/src/pages/PageTypesPage.jsx:77-79 | for a name not listed, one turn stores exactly the record `create({ name })` appends and pushes the id `create` returns, or the stored record when corrected |
| PageTypes.Fill | CanvasMidterm/src/pages/PageTypesPage.jsx:76-81 | the fill only appends to the store and to the list |
| PageTypes.FillNoOp | CanvasMidterm/src/pages/PageTypesPage.jsx:76-81 | when every name is listed already, nothing is created |
| PageTypes.FillCovers | CanvasMidterm/src/pages/PageTypesPage.jsx:76-81 | afterwards each name was listed or is stored; pushing the created records also lists it |
| PageTypes.FillOnlyMissing | CanvasMidterm/src/pages/PageTypesPage.jsx:77-78 | every appended record carries a name that was not listed |
| PageTypes.FillPushes | CanvasMidterm/src/pages/PageTypesPage.jsx:78-79 | each created type is pushed exactly once: as a bare id string as written, or as the stored record when corrected |
| PageTypes.FetchCovers | CanvasMidterm/src/pages/PageTypesPage.jsx:65-83 | every required name ends up stored, and only missing ones are created |
| PageTypes.FetchNoOp | CanvasMidterm/src/pages/PageTypesPage.jsx:76-81 | with every required type stored, the fetch creates nothing and lists the deduplicated table |
| PageTypes.FetchPageTypesAsWritten | CanvasMidterm/src/pages/PageTypesPage.jsx:65-84 | the store only grows, and holds a record for each required name |
| PageTypes.FetchPageTypes | CanvasMidterm/src/pages/PageTypesPage.jsx:65-84 | the store holds and the list shows every required type; records are created only for missing names; nothing changes when none is missing |
| PageTypes.FindClash | CanvasMidterm/src/pages/PageTypesPage.jsx:107-111 | over a list of named types: true exactly when another type has the same name up to case, the edited one excluded; the search throws only on an unnamed entry |
| PageTypes.FindHeld | CanvasMidterm/src/pages/PageTypesPage.jsx:120 | the first listed type with the id, or nothing when none has it |
| PageTypes.SaveType | CanvasMidterm/src/pages/PageTypesPage.jsx:101-135 | a blank name is refused; a clash is refused exactly when one exists; a required type is never edited; an accepted name succeeds for a create and for an edit of a listed type that is not required; an edit replaces only the edited record, with `{ id, name }`, and leaves the table equal when the id is no longer stored; a create appends `{ id, name }` |
| PageTypes.WriteType | CanvasMidterm/src/pages/PageTypesPage.jsx:118-128 | an edit of an unlisted type fails; editing a required type is refused; an edit of any other listed type succeeds and replaces the record by `{ id, name }` only at its position; otherwise one record is appended |
| PageTypes.DeleteType | CanvasMidterm/src/pages/PageTypesPage.jsx:137-150 | an unlisted type throws; a required type is refused; any other is removed by id, with every other record kept in its relative order and the table shrinking by exactly the number of records with the id |
| PageTypes.FoundIsStored | CanvasMidterm/src/pages/PageTypesPage.jsx:120 | on a list that mirrors the store, the type found by id is the stored record |
| PageTypes.SaveKeepsRequired | CanvasMidterm/src/pages/PageTypesPage.jsx:119-125 | no successful save removes or renames a stored required type |
| PageTypes.DeleteKeepsRequired | CanvasMidterm/src/pages/PageTypesPage.jsx:137-145 | with unique ids, no successful delete removes a stored required type |
| PageTypes.AsWrittenFreshFetchBare | CanvasMidterm/src/pages/PageTypesPage.jsx:78-79 | as written, the first fetch over an empty store lists a bare id string first |
| PageTypes.SaveFromBareCrashes | CanvasMidterm/src/pages/PageTypesPage.jsx:107-111 | a save whose list starts with a bare id string throws before its `try` |
| PageTypes.AsWrittenFreshFetchCrashes | CanvasMidterm/src/pages/PageTypesPage.jsx:78-109 | as written, after the first fetch over an empty store every non-blank save throws |
| PageTypes.FetchNamed | CanvasMidterm/src/pages/PageTypesPage.jsx:76-83 | with the created records pushed, the list from a store of named types is all named |
| PageTypes.FetchThenSaveNoCrash | CanvasMidterm/src/pages/PageTypesPage.jsx:76-111 | with the created records pushed, no save from the fetched list throws |
| Announcements.OpenDialog | CanvasMidterm/src/pages/AnnouncementsPage.jsx:108-121 | an announcement fills the fields and selects itself, with its id as the edited id; none leaves everything empty |
| Announcements.SaveEnabledIff | CanvasMidterm/src/pages/AnnouncementsPage.jsx:261-263 | Save is enabled exactly when both the title and the content contain a character that `trim` keeps |
| Announcements.Edited | CanvasMidterm/src/pages/AnnouncementsPage.jsx:133-137 | the selected announcement with only title and content replaced |
| Announcements.Fresh | CanvasMidterm/src/pages/AnnouncementsPage.jsx:139-143 | a new announcement holds exactly title, content and date |
| Announcements.SaveAnnouncement | CanvasMidterm/src/pages/AnnouncementsPage.jsx:131-147 | a disabled Save writes nothing; a non-empty edited id selects update over create; an edit succeeds, changes only the position of its id, and leaves the table equal when the id is no longer stored; a create appends |
| Announcements.EditKeepsIdAndDate | CanvasMidterm/src/pages/AnnouncementsPage.jsx:132-137 | an edit opened from the list keeps the id and the date, replaces title and content, and keeps every other field |
| Announcements.CreateStoresDate | CanvasMidterm/src/pages/AnnouncementsPage.jsx:139-143 | a created announcement reads back with exactly id, title, content and the date given at creation |
| Announcements.DeleteAnnouncement | CanvasMidterm/src/pages/AnnouncementsPage.jsx:149-152 | the id is gone; every other announcement is kept in its relative order; the table shrinks by exactly the number of records with the id |

## Left out

- Storage and serialisation: `getFromLocalStorageDB` and `saveToLocalStorageDB` are not part of this model. A table is an abstract sequence, and JSON and `localStorage` are not modelled.
- Randomness and the clock: the draw and `now` are parameters. Two draws that collide are not excluded; the lemmas that read back a created record require an id no record has.
- `async`, `await` and `Promise.all`: execution is sequential. The module reorder's updates run in list order.
- JavaScript object key order in `getAllGroupedBy` and `groupPagesByType`: groups are ordered by first occurrence. Integer-like keys are not moved first, and keys are compared as values, not coerced to strings.
- Store.GroupByPartition: a key whose string form names a member of `Object.prototype` (such as "constructor" or "toString") makes the source's reduce throw at `acc[key].push`; the model groups it like any other key. Store.GroupBy and Store.GroupByEachOnce share this gap.
- PageList.GroupPagesByType: the same gap for a page type named after an `Object.prototype` member, which makes the source throw while grouping.
- PageList.Names: only string names are kept. `types.map(pt => pt.name)` also keeps `undefined` for a type without a name and numbers or lists for non-string names; those are not modelled.
- PageList.TypeOptions: built from the string names only. The source also lists non-string names, which the default sort compares by their string form and places `undefined` last.
- Text.Sort: characters are compared as Dafny characters, that is by Unicode code point. JavaScript's default sort compares UTF-16 code units, which order differently only for characters outside the Basic Multilingual Plane.
- PageTypes.FindClash: the case-insensitive duplicate test uses Text.Lower, which folds only ASCII letters. JavaScript's `toLowerCase` also folds other letters, so two names differing only in the case of a non-ASCII letter are a clash in the source and not in the model.
- ModuleList.OrderKey: an `order` that is not a number is read as 0. The source's `a.order - b.order` coerces a numeric string such as "3" to 3, and gives NaN for other values, where the resulting order depends on the engine.
- Profile.SubmitProfile: a session that holds a bare string, or a record whose id is not a string, writes nothing. The source then calls `update(undefined, …)`, which would overwrite the first stored user that has no id. The re-login is still modelled.
- Non-string ids: a record whose id is not a string is never found by id.
- ModuleList.ReorderPage: a page id missing from the list (`indexOf` = -1) changes nothing. The same goes for a module id missing from the list in ModuleList.ReorderModule. The buttons only offer listed ids.
- ModuleList.RemovePage: a module without a page list changes nothing, where the source throws before writing. `module.pages \|\| []` with a truthy value that is not a list is read as an empty list in ModuleList.ListedPages.
- PageList.OpenDialog: a title or type that is not a string is read as "". The source would keep it and throw later at `trim`.
- Announcements.OpenDialog: a title or content that is not a string is read as "", where the source would keep it and throw later at `trim`.
- PageList.SavePage: a selected page without a string id fails with NotFound. The source's `update(undefined, …)` would match a stored page that has no id.
- PageTypes.SaveType: it returns the table the write leaves. The `await fetchPageTypes()` that follows (PageTypesPage.jsx line 129) is not applied to that result. When the list mirrors the store and every required type is stored before the save, it still is afterwards (PageTypes.SaveKeepsRequired), so that refetch creates nothing and only deduplicates (PageTypes.FetchNoOp).
- PageTypes.DeleteType: likewise, the refetch at PageTypesPage.jsx line 145 is not applied; when the list mirrors a store with unique ids, the delete keeps every stored required type (PageTypes.DeleteKeepsRequired), so that refetch creates nothing (PageTypes.FetchNoOp).
- The pages table fetch inside `fetchModulesAndPages` is not modelled; the modules page takes the pages table as a parameter where it renders entries.
- Dialog open and close state, navigation, `alert`, `console` and error messages are not modelled. Only the handlers' effects on the tables and the session are.
- Presentation components, the theme, routing, and the login and register pages are not part of this model.

## Findings

| source | as written | input that shows it | evidently intended | confidence | as-written member | corrected member |
|---|---|---|---|---|---|---|
| CanvasMidterm/src/context/AuthContext.jsx:49-58 | the session is set to what `create` returns, which is the new id string | register an unused email: the session holds "12345678", the profile form starts empty, and a profile submit updates `undefined` | the created user record becomes the session | high, not executed | Auth.RegisterAsWrittenLosesUser | Auth.RegisterThenLogin |
| CanvasMidterm/src/pages/PageTypesPage.jsx:78-79 | the value pushed after creating a required type is `create`'s return, an id string | first visit with an empty `pageTypes` table: the list holds four id strings, and any save throws at `pt.name.toLowerCase()` (line 109) | push the created record | high, not executed | PageTypes.AsWrittenFreshFetchCrashes | PageTypes.FetchThenSaveNoCrash |
| CanvasMidterm/src/pages/ModulesPage.jsx:222-228 | after storing every module's new position, the list is set to the swapped modules with their old `order` | modules A (order 0) and B (order 1): move B up, then add a page to B; B is stored with order 1 again and listed second | show the renumbered modules, or refetch | high, not executed | ModuleList.ReorderAsWrittenThenAddPage | ModuleList.ReorderThenAddPage |
| CanvasMidterm/src/pages/ModulesPage.jsx:162 | a new module gets `order: modules.length` | orders 0, 1, 2; delete the first two; create a module: it gets order 1 and is listed before the module with order 2 | an order above every existing one, so the new module is listed last | medium, not executed | ModuleList.CreateAsWrittenListedBefore | ModuleList.CreateListsLast |

In the first finding, the profile's `usersApi.update(undefined, …)` writes
nothing (`Profile.AsWrittenRegisterBlocksProfile`). With the corrected
registration, the submit succeeds (`Profile.RegisterThenProfileSaves`).

The page-types correction is `PageTypes.FetchPageTypes`. The as-written fetch
is `PageTypes.FetchPageTypesAsWritten`.

The module reorder correction is `ModuleList.ReorderModule`, with
`ModuleList.ReorderModuleAgrees`. The as-written reorder is
`ModuleList.ReorderModuleAsWritten`, with `ModuleList.ReorderAsWrittenIsStale`.

The new-module order correction is `ModuleList.CreateOrder`, used by
`ModuleList.CreateModuleCorrected` and `ModuleList.SaveModuleCorrected`. The
as-written save is `ModuleList.SaveModule`. The correction agrees with the
source whenever no order has reached the count (`ModuleList.CreateOrderAgrees`).
