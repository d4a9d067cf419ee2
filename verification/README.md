# Admin console: schema ordering and input validation

A Dafny model of the operator console of an idea-sharing application. The
console creates and drops the four tables of the schema (users, ideas,
comments, likes), loads sample rows, and sets a validity flag on users and
ideas. The model covers the logic that keeps foreign keys intact and the
parsing of the operator's input:

- **Schema** (`schema.dfy`): the tables, the reference relation (ideas →
  users; comments → ideas, users; likes → ideas, users), the
  referential-integrity invariant `Closed`, the dependents of a table, and the
  cascade plan, which drops a table's dependents in reverse creation order.
  Likes is treated as referencing ideas even though no such key is declared.
  This is the conservative reading the drop menu follows.
- **Lifecycle** (`lifecycle.dfy`): `createTable` and `dropTable` as pure
  transitions on the set of existing tables. Each returns the boolean the
  console prints. The module also has the fixed sequences of
  `createAllTable` and of the drop menu, and the proofs that they never break
  a foreign key and leave exactly the expected tables.
- **Seed** (`seed.dfy`): the insert calls of `addSampleData` over already
  parsed lists. Users go first, then ideas, comments and likes.
- **Console** (`console.dfy`): `prompt`, Java's `Integer.parseInt` and
  `getInt`, over a given sequence of input lines. Each line is a text, an
  `IOException`, or `null` at end of input.
- **Validity** (`validity.dfy`): `setValidity`. It covers case-insensitive
  matching of "Invalidate"/"Restore", integer parsing of idea ids, and the
  database call that results, if any.
- **Wrappers** (`wrappers.dfy`): an `Option` type.

The database layer is not part of this model. Its table operations are the
abstract transitions above. Its inserts and validity updates appear only as
the calls the console makes. The count a validity update returns is a
parameter.

Behaviour of the code worth knowing before reading the model:
- An unrecognised validity directive is not rejected. The console prints a
  cancel message, but the update still runs with validity true (see
  Findings).
- A non-numeric idea id makes no update call. The console prints a message
  and reports 0 entities changed.
- The sample load makes one insert call per row, in table order. It does
  not rewrite ids and does not count successes per table.

## Model

| member | source | states |
|---|---|---|
| Schema.References | admin-cli/src/main/java/edu/lehigh/cse216/knights/admin/App.java:204-215 | no table references itself, and every reference points to a table earlier in the creation order, so the reference graph is acyclic and the creation order is a topological order |
| Schema.CreationOrderIsOrdered | admin-cli/src/main/java/edu/lehigh/cse216/knights/admin/App.java:177-182 | from any state, users, ideas, comments, likes creates no table before the tables it references |
| Schema.DependsOnIsDirect | admin-cli/src/main/java/edu/lehigh/cse216/knights/admin/App.java:197 | a table depends on another through a chain of references exactly when it references it directly |
| Schema.DependentsValues | admin-cli/src/main/java/edu/lehigh/cse216/knights/admin/App.java:197 | the tables dropped with each table: all four for users; ideas, comments and likes for ideas; only itself for comments and for likes |
| Schema.CascadePlanValue | admin-cli/src/main/java/edu/lehigh/cse216/knights/admin/App.java:204-219 | the cascade of each table written out: likes, comments, ideas, users for users; likes, comments, ideas for ideas; the table alone for comments and likes |
| Schema.CascadePlanSound | admin-cli/src/main/java/edu/lehigh/cse216/knights/admin/App.java:197-204 | the cascade of every table drops exactly its dependents, each once, referencing tables first |
| Lifecycle.CreateTable | admin-cli/src/main/java/edu/lehigh/cse216/knights/admin/App.java:169-171 | the table exists afterwards, no other table changes, and the result is true exactly when the table was absent |
| Lifecycle.CreateTableIdempotent | admin-cli/src/main/java/edu/lehigh/cse216/knights/admin/App.java:169-171 | creating a table a second time reports that it already existed and changes nothing |
| Lifecycle.DropTable | admin-cli/src/main/java/edu/lehigh/cse216/knights/admin/App.java:188-190 | the table is gone afterwards, no other table changes, and the result is true exactly when the table was present |
| Lifecycle.DropTableIdempotent | admin-cli/src/main/java/edu/lehigh/cse216/knights/admin/App.java:188-190 | dropping a table a second time reports failure and changes nothing |
| Lifecycle.Run | admin-cli/src/main/java/edu/lehigh/cse216/knights/admin/App.java:177-182 | one printed result per table call, in call order |
| Lifecycle.SafeStepKeepsClosed | admin-cli/src/main/java/edu/lehigh/cse216/knights/admin/App.java:204 | a create whose references exist, or a drop no remaining table references, keeps the referential-integrity invariant |
| Lifecycle.SafeRunKeepsClosed | admin-cli/src/main/java/edu/lehigh/cse216/knights/admin/App.java:204 | a run of safe steps keeps the referential-integrity invariant |
| Lifecycle.RunCreates | admin-cli/src/main/java/edu/lehigh/cse216/knights/admin/App.java:177-182 | creating a plan adds exactly its tables; each call reports true exactly when its table was absent at the start and not created earlier in the plan |
| Lifecycle.RunDrops | admin-cli/src/main/java/edu/lehigh/cse216/knights/admin/App.java:205-220 | dropping a plan removes exactly its tables; each call reports true exactly when its table was present at the start and not dropped earlier in the plan |
| Lifecycle.CreateOrderedIsSafe | admin-cli/src/main/java/edu/lehigh/cse216/knights/admin/App.java:177-182 | a plan that never lists a table before the tables it references creates safely |
| Lifecycle.DropOrderedIsSafe | admin-cli/src/main/java/edu/lehigh/cse216/knights/admin/App.java:204 | a plan that never lists a table before the existing tables referencing it drops safely |
| Lifecycle.CreateAllTables | admin-cli/src/main/java/edu/lehigh/cse216/knights/admin/App.java:177-182 | createAllTable: creates users, ideas, comments, likes in that order and collects the four printed results |
| Lifecycle.CreateAllTablesSound | admin-cli/src/main/java/edu/lehigh/cse216/knights/admin/App.java:177-182 | createAllTable is safe from every state, keeps the invariant, leaves all four tables, and reports a creation exactly for each table that was missing |
| Lifecycle.DropPlan | admin-cli/src/main/java/edu/lehigh/cse216/knights/admin/App.java:205-220 | the branch chain of the drop menu: likes, comments, ideas, users for 'U' or '*'; likes, comments, ideas for 'I'; comments for 'C'; likes for 'L'; nothing for any other character |
| Lifecycle.DropTables | admin-cli/src/main/java/edu/lehigh/cse216/knights/admin/App.java:196-221 | dropTable after the menu choice: runs the choice's drop sequence and collects one printed result per drop |
| Lifecycle.DropPlanIsCascade | admin-cli/src/main/java/edu/lehigh/cse216/knights/admin/App.java:196-221 | each drop-menu choice runs the cascade of the table it names ('*' the cascade of users), and any other character drops nothing |
| Lifecycle.DropTablesSound | admin-cli/src/main/java/edu/lehigh/cse216/knights/admin/App.java:196-221 | every drop-menu choice is safe from every state, keeps the invariant, removes exactly the named table and the tables referencing it, and reports a drop exactly for each table that was present |
| Lifecycle.DropUsersOrAllEmptiesSchema | admin-cli/src/main/java/edu/lehigh/cse216/knights/admin/App.java:205-210 | 'U' and '*' drop likes, comments, ideas, users in that order and leave none of the four tables |
| Lifecycle.DropIdeasKeepsUsers | admin-cli/src/main/java/edu/lehigh/cse216/knights/admin/App.java:211-215 | 'I' drops likes, comments, ideas in that order and leaves users exactly as it was |
| Lifecycle.DropLeafTablesOnly | admin-cli/src/main/java/edu/lehigh/cse216/knights/admin/App.java:216-219 | 'C' removes only comments and 'L' removes only likes |
| Lifecycle.MenuChoiceDropsNamedTableLast | admin-cli/src/main/java/edu/lehigh/cse216/knights/admin/App.java:203-220 | every character prompt can return for the drop menu drops the table it names, as the last step |
| Lifecycle.DropOtherOptionChangesNothing | admin-cli/src/main/java/edu/lehigh/cse216/knights/admin/App.java:205-220 | a character outside the menu makes no call and changes nothing |
| Seed.AddSampleData | admin-cli/src/main/java/edu/lehigh/cse216/knights/admin/App.java:249-261 | the insert calls are one per row, grouped users, ideas, comments, likes, each list in its own order; no row comes before a row of a table it references; splitting the calls by table gives back the four lists |
| Seed.SampleLoadOrdered | admin-cli/src/main/java/edu/lehigh/cse216/knights/admin/App.java:249-261 | every user is inserted before any idea, every idea before any comment, every comment before any like |
| Seed.InCreationOrderResolves | admin-cli/src/main/java/edu/lehigh/cse216/knights/admin/App.java:249 | inserts grouped in creation order never put a row before a row of a table it references |
| Seed.SampleLoadPartition | admin-cli/src/main/java/edu/lehigh/cse216/knights/admin/App.java:250-261 | the calls into each table are exactly that table's parsed list, in order, each row once |
| Console.Accepts | admin-cli/src/main/java/edu/lehigh/cse216/knights/admin/App.java:69-73 | the line prompt returns on: Java length exactly 1 (one UTF-16 unit) and contained in the action string |
| Console.Prompt | admin-cli/src/main/java/edu/lehigh/cse216/knights/admin/App.java:58-76 | the chosen character is in the action string, is one UTF-16 unit, and is the whole of the last line read; every earlier line had a length other than 1, was not in the string, or failed to read; a null line aborts; if no line is accepted, every line was refused |
| Console.ParseInt | admin-cli/src/main/java/edu/lehigh/cse216/knights/admin/App.java:110 | a parsed value fits in 32 bits and comes from a non-empty text of an optional sign followed only by digits |
| Console.ParseShow | admin-cli/src/main/java/edu/lehigh/cse216/knights/admin/App.java:110 | every 32-bit integer parses back from its decimal text |
| Console.ShowOutOfRange | admin-cli/src/main/java/edu/lehigh/cse216/knights/admin/App.java:110 | the decimal text of an integer outside 32 bits does not parse, so a decimal text parses exactly when its value fits |
| Console.ParseIntForms | admin-cli/src/main/java/edu/lehigh/cse216/knights/admin/App.java:110 | a leading blank, a bare sign and the empty text are refused; a plus sign and leading zeros are accepted |
| Console.GetInt | admin-cli/src/main/java/edu/lehigh/cse216/knights/admin/App.java:98-117 | the result is the parsed 32-bit integer when the line parses and -1 otherwise, including a failed or null read |
| Console.GetIntMinusOneAmbiguous | admin-cli/src/main/java/edu/lehigh/cse216/knights/admin/App.java:104-116 | a typed "-1" gives the same result as a non-number or a failed read |
| Validity.SameIgnoringCase | admin-cli/src/main/java/edu/lehigh/cse216/knights/admin/App.java:334-336 | String.equalsIgnoreCase: equal lengths and, position by position, equal characters, equal upper cases, or equal lower cases of the upper cases |
| Validity.ParseDirective | admin-cli/src/main/java/edu/lehigh/cse216/knights/admin/App.java:334-340 | "Invalidate" ignoring case means false, otherwise "Restore" ignoring case means true, anything else is unrecognised |
| Validity.FoldOntoAsciiLetter | admin-cli/src/main/java/edu/lehigh/cse216/knights/admin/App.java:334-336 | against an ASCII letter, a character matches ignoring case exactly when it is that letter in either case, or dotless i / capital I with dot for i, long s for s, the Kelvin sign for k |
| Validity.DirectiveAnyCase | admin-cli/src/main/java/edu/lehigh/cse216/knights/admin/App.java:334-337 | "Invalidate" in any mix of cases gives false and "Restore" in any mix of cases gives true |
| Validity.DirectiveRecognisedOnlyByName | admin-cli/src/main/java/edu/lehigh/cse216/knights/admin/App.java:334-340 | on ASCII input, a directive is recognised only when it spells "Invalidate" (meaning false) or "Restore" (meaning true) with each letter in either case; any other ASCII text is unrecognised |
| Validity.DirectiveDotlessI | admin-cli/src/main/java/edu/lehigh/cse216/knights/admin/App.java:334-340 | dotless i stands for I under Java's case rules; "restore" means true; "Cancel" is not recognised |
| Validity.ReadInputs | admin-cli/src/main/java/edu/lehigh/cse216/knights/admin/App.java:329-343 | the try block: a failed id read leaves the id "" and skips the directive; a null id is kept as null; the directive is parsed, absent after a failed read, and a null directive crashes |
| Validity.Dispatch | admin-cli/src/main/java/edu/lehigh/cse216/knights/admin/App.java:346-355 | the branch on the entity: 'U' updates the user by its raw id; 'I' updates the idea only when the id parses as an integer; anything else makes no call |
| Validity.SetValidity | admin-cli/src/main/java/edu/lehigh/cse216/knights/admin/App.java:317-358 | the update call made: only for 'U' (with the raw id, empty after a failed read, null after a null read) or 'I' (with the parsed id); the flag is the recognised directive, and true when the directive is unrecognised or unread; a null directive crashes |
| Validity.MenuChoiceUpdatesUnlessBadIdeaId | admin-cli/src/main/java/edu/lehigh/cse216/knights/admin/App.java:317-355 | prompt only yields 'U' or 'I' here; then the only way no update is asked for, short of a crash, is an idea id that does not parse as an integer |
| Validity.EntitiesChanged | admin-cli/src/main/java/edu/lehigh/cse216/knights/admin/App.java:325-356 | the printed count: what the database reported for the call made, 0 when no call was made, nothing printed after a crash |
| Validity.NonNumericIdeaIdChangesNothing | admin-cli/src/main/java/edu/lehigh/cse216/knights/admin/App.java:348-356 | an idea id that is not a 32-bit integer means no update call and a printed count of 0 |
| Validity.IdReadErrorDefaults | admin-cli/src/main/java/edu/lehigh/cse216/knights/admin/App.java:322-347 | after a failed id read, no idea is updated, and the user with the empty id is set valid |
| Validity.UnknownDirectiveStillUpdates | admin-cli/src/main/java/edu/lehigh/cse216/knights/admin/App.java:338-347 | an unrecognised directive still sets the user or idea to valid |
| Validity.SetValidityChecked | admin-cli/src/main/java/edu/lehigh/cse216/knights/admin/App.java:339 | with the cancel honoured, an update happens only after a recognised directive, with the flag it names |
| Validity.CheckedCancelsUnknownDirective | admin-cli/src/main/java/edu/lehigh/cse216/knights/admin/App.java:338-340 | the checked version makes no update on an unrecognised directive and agrees with the code on a recognised one |

## Findings

| source | as written | input that shows it | evidently intended | confidence | as-written member | corrected member |
|---|---|---|---|---|---|---|
| admin-cli/src/main/java/edu/lehigh/cse216/knights/admin/App.java:338-347 | an unrecognised directive prints "Invalid command. Cancelling action without making changes." but `updatedValidity` keeps its initial `true` and the update call still runs | user id "alice", directive "Cancel": the user is set valid | no update call when the directive is not recognised | high; not executed | Validity.SetValidity, Validity.UnknownDirectiveStillUpdates | Validity.SetValidityChecked, Validity.CheckedCancelsUnknownDirective |

The rest of the model keeps the code's behaviour. `Validity.SetValidity` is
the model of the console. `Validity.SetValidityChecked` shows the behaviour
the message describes.

## Left out

- Terminal output: `menu`, the printing in `getData`, `getString`, the
  `main` read-and-dispatch loop, and the message texts printed by
  `createTableAndPrintResult` and `dropTableAndPrintResult`. Only the boolean
  each prints from is modelled.
- File reading and JSON parsing in `addSampleData`: these are file I/O and a
  foreign library. The model starts from the four parsed lists.
- `getDatabaseConnection` and `getIntFromEnv`: environment variables and
  connection setup.
- The `Database` class is not part of this model. Row storage, foreign-key
  enforcement by the store, and the counts returned by `setUserValidity` and
  `setIdeaValidity` are not modelled. The count is a parameter of
  `Validity.EntitiesChanged`.
- `web/knights-web-app/src/app/add-comment-page/add-comment-page.component.ts`:
  a browser UI and network client with no self-contained logic.
- Console.Prompt: the real loop reads forever. The model reads a finite
  sequence of lines and reports when it runs out without an accepted one.
- Console.ParseInt: accepts only ASCII digits. Java's `Integer.parseInt` also
  accepts other Unicode decimal digits.
- Validity.SameIgnoringCase: models Java's case mappings only for the ASCII
  letters and the four non-ASCII characters that map onto ASCII letters
  (U+0131, U+017F, U+0130, U+212A). This is exact whenever one side is ASCII,
  which is the only way the console uses it.
- The validity flag as a state of stored rows (invalidate/restore
  idempotence in the store) belongs to the database layer. The model states
  that a recognised directive assigns its flag rather than toggling it.
