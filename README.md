# sb-cli apps menu and setup wizard, modelled in Dafny

This project models the decision logic of the sudobox command-line tool
(`sb-cli`): the apps menu in `submenus/Apps.js` and the first-run setup
wizard in `lib/initQuestions.js`. Every remote result (catalog pages, the
installed-container listing, install and delete responses, DNS and public IP
lookups, CloudFlare answers, settings saves) and every operator answer is an
input value. The model states what the code does with those inputs.

Modules, one per concern of the source:

- `OrderedDict` (`ordered_dict.dfy`): a JavaScript object used as a string-keyed
  dictionary. It is an insertion-ordered association list. Writing a key that
  already exists keeps its position, as `Object.entries` reports it. The module
  also holds `delete` and the counts over values.
- `Selection` (`selection.dfy`): the `appsBeingInstalled` / `appsBeingRemoved`
  lists. Picking an entry whose id is present filters it out; otherwise the
  entry is pushed at the end.
- `Menu` (`menu.dfy`): the list prompts as choice lists. Covers `displayPages`,
  `actionItems` and the page arithmetic of `pageNext` / `pageBack`.
- `Chunking` (`chunking.dfy`): the `reduce` that splits the installed list into
  pages of 10.
- `Batch` (`batch.dfy`): a sequential batch whose statuses are plain strings.
  It serves the delete batch and the setup install loop.
- `AppsInstall` (`install_screen.dfy`): the install screen. Covers labels,
  choices, the guarded selection toggle, and the install batch whose failure
  entry is a bare string. The `InstallScreen` class keeps `page`, the selection,
  `loop`, and how the loop ended.
- `AppsDelete` (`delete_screen.dfy`): the delete screen. Covers pages of 10,
  the unguarded toggle, and the delete batch. The `DeleteScreen` class keeps
  the listing, the selection, `page` and `loop`.
- `AppsStatus` (`containers.dfy`): the status screen. Covers the running-first
  sort and the translation of "n", "a-b" and "i,j,k" into container ids.
- `SetupValidators` (`validators.dfy`): the `validate` callbacks as verdicts,
  and asking one question until an answer is accepted.
- `SetupWizard` (`wizard.dfy`): the nine questions and their `when` callbacks.
  Also the summary rows, the confirm-or-restart step, the key stripping and
  save loop, and the setup install loop.

Behaviour worth noting, as the code has it:

- Toggling a selected item twice does not give back the same list. The entry
  is filtered out and then pushed again, so it moves to the end (`ToggleTwicePresent`).
  Only an unselected item round-trips exactly (`ToggleTwiceAbsent`).
- The install screen refuses to select an app by its catalog name being among
  the installed container names, not by id. The delete screen has no such guard.
- A failed install overwrites the status object with the bare string
  "Installation Failed". It keeps no reason and can never be counted as a success.
- A transport error in `getApp`, `installApp` or `deleteApp` makes the promise
  reject. The exception leaves the loop, so the batch ends there. A transport
  error does not mark the item failed.
- The setup install loop marks an app installed when the call resolves a
  truthy `data.error`. This is kept as written.
- The zone validator yields nothing (`undefined`) when CloudFlare answers
  `success: false`. inquirer then asks again without a message.
- The summary's "Upload Amount" row tests the storage answer, which is always
  set, so it always reads "750GB+".

## Model

| member | source | states |
|---|---|---|
| `OrderedDict.PutSpec` | submenus/Apps.js:294-309 | after `d[k] = v`, `k` reads `v` and every other key reads as before; an existing key keeps its place, a new key goes last |
| `OrderedDict.PutKeepsDistinct` | submenus/Apps.js:294 | writing a key never creates a second entry for it |
| `OrderedDict.Delete` | lib/initQuestions.js:191-192 | `delete d[k]` leaves `k` absent, every other key reading as before, and only entries of the original |
| `OrderedDict.DeleteAppend` | lib/initQuestions.js:191-192 | `delete` works entry by entry: on a concatenation it deletes from each part, so the remaining entries keep their order |
| `OrderedDict.PutPut` | submenus/Apps.js:294-309 | writing a key twice leaves what the second write alone leaves, so the pending status is overwritten in place |
| `OrderedDict.Dedup` | submenus/Apps.js:294-309 | the keys a run of writes leaves: every written key and no other, each once |
| `OrderedDict.DedupDistinct` | submenus/Apps.js:294-309 | writes to distinct keys leave exactly those keys in write order |
| `OrderedDict.CountAfterPut` | submenus/Apps.js:323-330 | a write changes the count of values satisfying a test by the new value's contribution minus the old one's |
| `Selection.Without` | submenus/Apps.js:352 | the filter removes every entry with the id, keeps every other entry, and adds nothing |
| `Selection.WithoutAppend` | submenus/Apps.js:352 | the filter works entry by entry: on a concatenation it filters each part, so the kept picks stay in selection order |
| `Selection.ToggleMembership` | submenus/Apps.js:351-355 | `Toggle`, the filter-or-push of lines 351-355 and 511-515: a pick flips the membership of the picked id and of no other id |
| `Selection.ToggleUnique` | submenus/Apps.js:351-355 | ids in the selection stay unique |
| `Selection.ToggleTwiceAbsent` | submenus/Apps.js:351-355 | picking an unselected id twice restores the exact selection list |
| `Selection.ToggleTwicePresent` | submenus/Apps.js:351-355 | picking a selected id twice keeps the same ids but moves that entry to the end |
| `Menu.PageControls` | submenus/Apps.js:207-216 | no controls for one page or fewer; "Page <" offered iff page > 1, "Page >" iff page < totalPages; nothing else offered |
| `Menu.ActionItems` | submenus/Apps.js:218-223 | the confirm action is offered iff the selection is non-empty, and the list always ends with Back then Exit |
| `Menu.NavigationStaysInRange` | submenus/Apps.js:257-261 | an offered page action keeps the page within 1..totalPages |
| `Menu.OfferedLayout` | submenus/Apps.js:245 | a prompt built from items, page controls and action items offers each answer exactly where its own part offers it |
| `Menu.LayoutOffers` | submenus/Apps.js:245 | in the full prompt, an item answer is offered iff its item is, a page action iff its control is drawn, the confirming action iff something is selected, and Back and Exit always |
| `Chunking.Reduce` | submenus/Apps.js:382-396 | the reduce yields ceil(n / 10) chunks |
| `Chunking.ReduceChunk` | submenus/Apps.js:382-396 | chunk i holds exactly the items with indexes 10*i to 10*i + 9 |
| `Chunking.ReduceIsPartition` | submenus/Apps.js:382-398 | ceil(n / 10) chunks, each of 1 to 10 items, whose concatenation is the installed list |
| `Batch.RunBatch` | submenus/Apps.js:455-474 | the loop computes `Batch.Batch`, the fold of lines 455-474: items in list order, each pending then settled, stopping at the first rejected call |
| `Batch.BatchSettlesEveryItem` | submenus/Apps.js:455-474 | with no rejected call, every item is keyed in list order and ends succeeded exactly when its own call resolved truthy |
| `Batch.BatchLastWrite` | submenus/Apps.js:455-474 | with no rejected call and any names: each name keyed once, in order of first occurrence, with the status its last call settled |
| `Batch.BatchTally` | submenus/Apps.js:478-489 | with no rejected call, the count line reports the distinct names as queued and the names whose last call resolved truthy as succeeded; for distinct names, every item and exactly the truthy calls |
| `Batch.BatchStopsAtRejection` | submenus/Apps.js:43-56 | the first rejected call ends the batch, its item left pending and no later item processed |
| `AppsInstall.Label` | submenus/Apps.js:198-205 | label = name, then the installed or not-installed mark, then the selected mark iff selected |
| `AppsInstall.LabelDeterminesState` | submenus/Apps.js:198-205 | the label tells the installed and selected states apart |
| `AppsInstall.ItemsOffer` | submenus/Apps.js:198-205 | each item's value carries the app's id, catalog name and label without the selected mark |
| `AppsInstall.ChoicesOffer` | submenus/Apps.js:245 | the prompt offers the page's items, "Page >" iff totalPages > 1 and page < totalPages, "Page <" iff totalPages > 1 and page > 1, Install iff the selection is non-empty, Back and Exit always |
| `AppsInstall.ItemOffered` | submenus/Apps.js:245 | every app of the page can be picked |
| `AppsInstall.SelectSpec` | submenus/Apps.js:350-355 | `Select`, the guarded toggle of lines 350-355: an installed name leaves the selection unchanged; otherwise the id's membership flips, an absent pick is appended, a present one is filtered out with the other picks in order, and ids stay unique |
| `AppsInstall.RunInstallBatch` | submenus/Apps.js:272-311 | the loop computes `InstallBatch`, the fold of `InstallStep` (one pass of lines 272-311), in selection order, ending at the first exception |
| `AppsInstall.InstallSettlesEveryItem` | submenus/Apps.js:272-311 | with no exception, apps are keyed by name in selection order; a true result gives "Successfully Installed" with its access URL, a false one the bare failure string |
| `AppsInstall.InstallLastWrite` | submenus/Apps.js:272-311 | with no exception and any names: each catalog name keyed once, in order of first selection, with the entry its last install left |
| `AppsInstall.InstallCount` | submenus/Apps.js:323-330 | with no exception, the count line reports the distinct names as queued and the names whose last install resolved true as installed; for distinct names, every app and exactly the true results |
| `AppsInstall.UserPromptsEndBatch` | submenus/Apps.js:280-281 | an app that asks for extra answers ends the batch before its entry is written |
| `AppsInstall.InstallScreen.constructor` | submenus/Apps.js:184-187 | the screen starts on page 1 with an empty selection and the loop running |
| `AppsInstall.InstallScreen.Step` | submenus/Apps.js:248-262 | one answer: a pick toggles with the installed guard, page actions move the page by one without touching the selection, Back ends the loop, Exit exits |
| `AppsInstall.PageStepInRange` | submenus/Apps.js:257-262 | an offered page action from page 1 or later lands on page 1 or later, and on a page at most totalPages when it started there or below |
| `AppsInstall.InstallScreen.Turn` | submenus/Apps.js:257-262 | "Next Page" adds one to the page and "Previous Page" subtracts one; the selection and the loop are untouched |
| `AppsInstall.InstallScreen.Choose` | submenus/Apps.js:349-355 | a pick leaves the selection alone when its name is installed, otherwise toggles its id, and the ids stay unique; the page and the loop are untouched |
| `AppsInstall.InstallScreen.Install` | submenus/Apps.js:266-346 | Install runs the batch over the selection; unless it threw, "install more?" empties the selection and continues, or ends the loop |
| `AppsInstall.WikiOffered` | submenus/Apps.js:198-245 | on the first catalog page "wiki" can be picked |
| `AppsInstall.ChatOffered` | submenus/Apps.js:198-245 | on the second page "chat" can be picked while "wiki" is selected |
| `AppsInstall.TwoPageSelection` | submenus/Apps.js:248-262 | picking "wiki" on page 1, turning the page and picking "chat" leaves the selection [wiki, chat] on page 2 |
| `AppsInstall.TwoAppsInstalled` | submenus/Apps.js:272-330 | installing the selection [wiki, chat] with both succeeding processes wiki then chat, and the count reads 2 queued, 2 installed |
| `AppsDelete.RemovalLabel` | submenus/Apps.js:400-402 | the container name, followed by the selected mark iff selected |
| `AppsDelete.DeletePageControlsAgree` | submenus/Apps.js:371-380 | the delete screen's test "more than 10 containers" is the test "more than one page" |
| `AppsDelete.DrawnOnlyOnExistingPages` | submenus/Apps.js:398-400 | the screen can be drawn exactly on pages 1..ceil(n / 10), and never when nothing is installed |
| `AppsDelete.PageMembers` | submenus/Apps.js:398-400 | every container of a page is an installed container |
| `AppsDelete.DeleteItemsOffer` | submenus/Apps.js:400-402 | each item's value names a container of the page by its id and its label |
| `AppsDelete.DeleteChoicesParts` | submenus/Apps.js:398-424 | `DeleteChoices`, the prompt of lines 398-424: a drawn page offers what its items, page controls and action items offer, and nothing else |
| `AppsDelete.DeletePickOffer` | submenus/Apps.js:424 | a picked item names a container of the current page |
| `AppsDelete.DeleteTurnOffer` | submenus/Apps.js:371-380 | "Page >" is offered iff n > 10 and page < ceil(n / 10); "Page <" iff n > 10 and page > 1 |
| `AppsDelete.DeleteActionOffer` | submenus/Apps.js:404-409 | Delete is offered iff the selection is non-empty; Back and Exit always |
| `AppsDelete.DeleteCount` | submenus/Apps.js:453-489 | with no rejected call, the statuses hold each selected name once in selection order, and the count reports the distinct names as queued and those whose last delete resolved truthy as deleted; for distinct names, every app and exactly the truthy deletes |
| `AppsDelete.DeleteScreen.constructor` | submenus/Apps.js:362-365 | the screen starts on page 1 with an empty selection over the fetched listing |
| `AppsDelete.DeleteScreen.Pick` | submenus/Apps.js:511-515 | picking a container toggles it by id with no installed check, keeping ids unique |
| `AppsDelete.DeleteScreen.Draw` | submenus/Apps.js:398-424 | the page is drawn, or the screen throws when the page's chunk does not exist |
| `AppsDelete.DeleteScreen.Handle` | submenus/Apps.js:427-517 | one answer: page actions stay within the drawn pages and keep the selection, a pick toggles, Delete runs the batch, Back ends the loop, Exit exits |
| `AppsDelete.TurnInRange` | submenus/Apps.js:371-380 | an offered page action on a drawn page lands on a page within 1..ceil(n / 10) |
| `AppsDelete.DeleteScreen.Turn` | submenus/Apps.js:443-448 | a page action moves the page by one, to a page within 1..ceil(n / 10), and changes nothing else |
| `AppsDelete.DeleteScreen.Choose` | submenus/Apps.js:510-516 | a picked item of the drawn page toggles its container |
| `AppsDelete.DeleteScreen.Delete` | submenus/Apps.js:449-506 | Delete runs the batch over the selection; unless it threw, "delete more?" empties the selection and takes the refetched listing, keeping the page |
| `AppsDelete.StalePageAfterDeleteMore` | submenus/Apps.js:500-505 | after "delete more", a page past the refetched listing's last page cannot be drawn |
| `AppsDelete.ElevenThenTen` | submenus/Apps.js:382-400 | eleven containers make two pages, the second holding the eleventh; with ten left, page 2 cannot be drawn |
| `AppsStatus.SortIsStablePartition` | submenus/Apps.js:134 | `SortByState`, the sort with comparator `Compare` of line 134: the running containers in listing order, then the others in listing order |
| `AppsStatus.SortRunningFirst` | submenus/Apps.js:134 | every running container precedes every non-running one, and the sort is a permutation |
| `AppsStatus.SelectContainerIds` | submenus/Apps.js:68-99 | the method computes `ContainerIds` (lines 68-99): one number, or the range ids followed by the list ids, or none when an index is out of bounds |
| `AppsStatus.CollectRange` | submenus/Apps.js:87-92 | the range loop computes `RangeIds`: ids a..b in ascending order, or failure on an index outside the list |
| `AppsStatus.CollectList` | submenus/Apps.js:94-99 | the list loop computes `ListIds`: the listed containers' ids in the given order, or failure on an index outside the list |
| `AppsStatus.RangeSelectsRun` | submenus/Apps.js:88-91 | "a-b" with 1 <= a <= b <= n selects containers a..b, 1-based and inclusive, in ascending order |
| `AppsStatus.NumberPicksRow` | submenus/Apps.js:71-72 | a single number selects the container shown with that number in the sorted table |
| `AppsStatus.ListSelectsInOrder` | submenus/Apps.js:94-99 | "i,j,..." selects each listed container, in the given order, with repeats kept |
| `AppsStatus.BothSeparatorsContribute` | submenus/Apps.js:85-99 | with both separators, the range's ids come first and then the list's; a failure in either sends nothing. This follows the code's structure; no typed text makes both parts yield ids (see `MixedTextSendsNothing`) |
| `AppsStatus.MixedTextSendsNothing` | submenus/Apps.js:68-99 | text such as "1-3,5" yields pieces that read as NaN, so nothing is sent |
| `AppsStatus.StatusPass` | submenus/Apps.js:59-116 | Start and Stop post a request for each selected id in order, up to and including the first POST that rejects, and none after it; with no rejection every selected id is posted; Restart and Kill post nothing; Back ends the loop; Exit exits |
| `AppsStatus.SecondPostRejected` | submenus/Apps.js:101-116 | "1,2,3" with the second POST rejected starts only the first two containers, and the status loop goes on |
| `SetupValidators.DomainVerdictSpec` | lib/initQuestions.js:46-64 | `DomainVerdict`, the domain validator: a malformed domain gets "Please provide a valid domain" whatever the lookups give; when both lookups answer and the answer list has a first address, a well-formed domain is accepted iff that address is the public IP, else refused with a message ending with that IP; when either lookup fails or no address comes back, the validator throws |
| `SetupValidators.DomainExample` | lib/initQuestions.js:46-64 | example.com at 203.0.113.5 is accepted on a server with that IP and refused with the other IP in the message |
| `SetupValidators.EmailVerdict` | lib/initQuestions.js:73-80 | accepted iff the email pattern matches, otherwise "Invalid Email" |
| `SetupValidators.KeyVerdict` | lib/initQuestions.js:89-108 | accepted iff the account call answers success true; a false answer and a failed call give the same message |
| `SetupValidators.KeyFailuresAlike` | lib/initQuestions.js:100-107 | a refused key and a failed call cannot be told apart |
| `SetupValidators.DomainExists` | lib/initQuestions.js:130-136 | the flag-and-break loop finds the domain iff some record's name equals it |
| `SetupValidators.ZoneVerdictSpec` | lib/initQuestions.js:117-146 | `ZoneVerdict`, the zone validator: accepted iff success and some record's name equals the domain; no message when success is false; otherwise "DNS Zone ID not valid" |
| `SetupValidators.CheckZone` | lib/initQuestions.js:117-146 | the validator with its loop yields the zone verdict |
| `SetupValidators.PasswordVerdict` | lib/initQuestions.js:240-246 | the redis, mysql, JWT and session passwords are accepted iff their length in UTF-16 code units is at least 12 |
| `SetupValidators.Utf16Length` | lib/initQuestions.js:241 | `value.length` counts UTF-16 code units: between the character count and twice it, and equal to it without astral characters |
| `SetupValidators.SurrogatePairsCount` | lib/initQuestions.js:240-246 | a password of six emoji, six characters but twelve code units, is accepted |
| `SetupValidators.EncryptionKeyVerdict` | lib/initQuestions.js:304-310 | the storage encryption key is accepted iff its length in UTF-16 code units is 20 to 64 |
| `SetupValidators.EncryptionKeyStricter` | lib/initQuestions.js:304-310 | every accepted key passes the password check; a key of 12 to 19 code units is refused with the 12-character message |
| `SetupValidators.FirstAccepted` | lib/initQuestions.js:46-64 | the kept answer is the first attempt the validator accepts, and every earlier attempt was refused |
| `SetupValidators.AcceptedEndsQuestion` | lib/initQuestions.js:46-64 | attempts after the accepted one change neither the answer nor the messages shown |
| `SetupWizard.QuestionsWellOrdered` | lib/initQuestions.js:19-161 | every `when` reads only answers asked before it, and no question repeats |
| `SetupWizard.CollectOrdered` | lib/initQuestions.js:19-161 | walking well-ordered questions with their `when` callbacks gives each asked question's reply, in question order |
| `SetupWizard.CollectIsAskedAnswers` | lib/initQuestions.js:19-161 | `Collect`, the prompt walking the questions: its answers are the replies of the asked questions, in question order |
| `SetupWizard.AskedQuestions` | lib/initQuestions.js:30-40 | uploadAmount and domainConfirm are asked iff Cloud; the domain and CloudFlare keys iff Cloud and domainConfirm; authelia and sb_dashboard always; a skipped key is absent |
| `SetupWizard.KeysDependOnTwoReplies` | lib/initQuestions.js:65-67 | which keys are answered depends only on the storage and domainConfirm replies |
| `SetupWizard.SummaryOfRun` | lib/initQuestions.js:169-176 | `Summary` and `Rows`, the table of lines 169-176: Storage, Upload Amount "750GB+", the four domain rows only with a domain, then SSO and Dashboard as Enabled/Disabled |
| `SetupWizard.UploadRowIgnoresAnswer` | lib/initQuestions.js:170 | the Upload Amount row is "750GB+" whatever the upload answer |
| `SetupWizard.Strip` | lib/initQuestions.js:191-192 | uploadAmount and domainConfirm are removed and every other key reads as before |
| `SetupWizard.StrippedRun` | lib/initQuestions.js:191-192 | what is handed to the save loop is every asked key except uploadAmount and domainConfirm, with its reply |
| `SetupWizard.StripAppend` | lib/initQuestions.js:191-192 | the two deletes work entry by entry, so the kept answers stay in their order |
| `SetupWizard.StripAskedAnswers` | lib/initQuestions.js:191-192 | stripping the asked answers gives `SavedAnswers`: the asked replies other than the two stripped keys, in question order |
| `SetupWizard.StrippedRunInOrder` | lib/initQuestions.js:186-205 | the save loop receives the kept answers in question order: storage, the four domain keys when asked, authelia, sb_dashboard |
| `SetupWizard.SavedKeys` | lib/initQuestions.js:19-161 | the kept keys are storage, domain and the three CloudFlare keys exactly for Cloud with a domain, then authelia and sb_dashboard |
| `SetupWizard.Settle` | lib/initQuestions.js:189 | some replies are kept iff some round is confirmed |
| `SetupWizard.DeclinedRoundsSaveNothing` | lib/initQuestions.js:189 | declined rounds leave no trace: what is saved is decided by the later rounds alone |
| `SetupWizard.SaveAll` | lib/initQuestions.js:194-205 | one save per remaining key, in order; the stored entries are `Stored`, those whose own save succeeded |
| `SetupWizard.StoredKeepsSaved` | lib/initQuestions.js:194-205 | a failing save does not prevent a later save from storing its entry |
| `SetupWizard.StoredOnlySaved` | lib/initQuestions.js:194-205 | only entries whose save succeeded are stored |
| `SetupWizard.StoredAllSaved` | lib/initQuestions.js:194-205 | when every save succeeds, every entry is stored in answer order |
| `SetupWizard.SetupCalls` | lib/initQuestions.js:411-437 | one call per app; every call rejects when the Authelia or the Traefik answers were never asked, and otherwise the calls are the given responses |
| `SetupWizard.SavedPrompts` | lib/initQuestions.js:216-332 | the Authelia prompts run iff SSO was wanted, the Traefik prompt iff storage is Cloud |
| `SetupWizard.SetupNeedsSsoAndCloud` | lib/initQuestions.js:369-388 | `SetupInstall`, the install phase: without SSO or without Cloud, the first app is marked "Installing..." and the loop throws |
| `SetupWizard.SetupTally` | lib/initQuestions.js:369-388 | with SSO, Cloud and no rejected call, the final `appsInstalling` holds each listed name once, in server order, and the number of its entries reading "Successfully Installed" is the number of names whose last call resolved a truthy `error`; for distinct names, it holds every app and that number is the number of truthy calls (the loop prints no count) |

## Left out

- Terminal I/O is not modelled: prompts, `clear`, `console.log`, tables and the
  banner. Menus are choice lists and operator answers are inputs.
- `lib/printInfo.js` is not part of this model.
- HTTP, DNS and public-IP lookups are inputs. This covers `getApp`, `installApp`,
  `deleteApp`, the container action POSTs (the position of the first one that
  rejects), the CloudFlare calls and `/setup`.
- The domain and email regular expressions are taken as given booleans
  (`wellFormed`, `matches`). JavaScript regex semantics are not modelled.
- The random password defaults from `generate-password` are nondeterministic
  and are not modelled. Only the validators over the final value are.
- The settings store is a log of saves, and `SettingsDB.findOne` is the input
  `domain`. The mongoose models, the `/setup` request body and the final
  password printout are not modelled. That printout reads `autheliaAnswers`
  unconditionally, so without SSO it would throw after the loop.
- `index.js` and `submenus/Settings.js` are not part of this model. They hold
  the main-menu dispatch, the Mongo connection and the settings menu loop.
- `process.exit()` is the terminal state `Exited`. An exception out of a
  screen is the terminal state `Threw`, with nothing after it modelled.
- The unreachable `removeApps` case of the install screen is not modelled.
  The guard on the answer excludes it.
- The container index input is taken as already-parsed integers, with NaN as
  `None`. JavaScript's string-to-number coercion is not modelled.
- `Object.entries` lists integer-like keys first. App names are treated as
  non-numeric keys, so insertion order is the listing order.
- How the catalog and the installed listing change between passes of a
  screen is not modelled. Each pass takes them as fresh inputs.
- `Batch.BatchSettlesEveryItem`: states the per-position settlement only for
  distinct names, where position i of the statuses is item i. For repeated
  names, `Batch.BatchLastWrite` states the result instead.
- `AppsInstall.InstallSettlesEveryItem`: states the per-position settlement
  only for distinct catalog names. For repeated names,
  `AppsInstall.InstallLastWrite` states the result instead.
- `AppsStatus.SortByState`: the comparator of line 134 is inconsistent when two
  non-running containers have different states, and ECMAScript then leaves the
  order to the engine. The model follows a stable sort that only tests
  `< 0`, as V8 does.
- `SetupValidators.Shown`: a validator that throws makes inquirer show the
  error's own text. That text is not carried by the model, so such an attempt
  adds no message.
