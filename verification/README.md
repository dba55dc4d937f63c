# Verified model of the publish/subscribe and service framework cores

Dafny models of the parts of Qt PubSub and the Qt Service Framework whose correctness is hardest to see, with
proofs. Objects that the C++ updates in place are classes with the same fields; what their methods do is stated by
functions and predicates on values, and what holds over all inputs and whole runs is proved about those. Run
`dafny verify dfyconfig.toml`.

| files | what they model |
|---|---|
| `ReadWriteLock` | the cross-process read/write lock, as a step relation over any number of threads, and as a class |
| `CanonicalPath`, `Subscriber` | `qCanonicalPath` and the paths of a subscriber |
| `LayerPath`, `GConfLayer` | the handle table of the GConf layer and the resolvers that must agree on a key |
| `ProxyMap`, `RegistryTables`, `RegistryOpening`, `RegistryRemoval`, `RegistryPublish`, `RegistryNotify`, `RegistryLayer` | handles, keys, waits and proxy entries of the registry layer |
| `Version`, `ServiceFilter` | version numbers and filters |
| `XmlReader`, `ServiceXml`, `ServiceXmlFacts`, `ServiceXmlItems`, `ServiceXmlParts`, `ServiceXmlRoundTrip`, `ServiceXmlEnds`, `ServiceMetaData` | the metadata parser: folds over tokens, what they make of interfaces, services and documents, what they accept and where they stop, and the class whose loops compute them |
| `ServiceTables`, `ServiceUpdates`, `ServiceRows`, `ServiceUndo`, `ServiceStorage`, `ServiceRuns`, `ServiceDatabase` | the five tables of a service database, what changes keep and undo, what is read back, whole runs, and the class with its transactions |
| `ServiceScopes`, `DatabaseManager` | the user's and the system's database together |
| `QServiceManager` | adding a service, from its XML description to its rows, and asking for a default |
| `Operations` | the re-entrant request processor and the replies |
| `Text`, `Descriptor` | shared helpers and the interface descriptor |

## Reading the models

- **Lock.** Each section under the shared mutex is one step, and taking a semaphore token is a step of its own, so
  barging, stolen tokens and vain wake-ups are runs of the model. The ghost field `phase` says where each thread is.
- **Registry layer.** `View` is the whole state. `held` is the multiset of references that callers hold; a reference
  count is the number of those plus one for each proxy entry keyed on the handle. Within a call some entries may be
  detached (`det`): the call holds their references. The registry itself is a value that does not change during a call.
- **Databases.** A transaction is the pair of the tables seen and the tables saved; `Disk()` is what is committed.
  `ExecuteQuery` lets the engine refuse any statement, and the ghost field `faults` counts refusals: clauses with
  `faults == old(faults)` say what happens when there are none, all others hold whatever is refused. `stuck` counts the
  refused rollbacks, the only thing that leaves a transaction open. An identifier carries the database that made it, so
  external ones can be told apart.
- **Two databases.** Other processes may change both between two calls. `Valid` is all that a call relies on, and
  `ServiceRuns.InterleavingKeeps` shows that every interleaving of changes establishes it.
- **Requests.** Requests still to arrive are a list; whenever the event loop spins, any number of them do. What the databases and the loader answer for a request is part of it.

## Where the code and its documentation differ

The models follow the code.

- Opening the system database is meant to clean up old external defaults, but it looks them up in the user's own
  database (`src/serviceframework/databasemanager.cpp:785`) and so resets all of them. Of these one survives only if
  every implementation of its name has stored a property, and it is a newest one and newer than all of the user's own;
  and then it does, up to the engine's row order among equal versions of the system's database. If one of them has
  stored none, nothing replaces it: `ServiceScopes.KeptExternal`. `ServiceScopes.TiedExternalLost`,
  `ServiceScopes.ValidExternalLost` and `ServiceScopes.ReadableExternalLost` give valid ones that are lost.
- `interfaceDefault` finds no default although the name is implemented, besides where none was chosen, if the row of the
  default has stored no property, or if that row is gone and some implementation of the name has stored none:
  `ServiceScopes.Findable` says exactly when one is found, `ServiceScopes.FoundIfReadable` when that is the same as being
  implemented, `ServiceScopes.StaleUnreadable` gives the last case.
- Duplicate interfaces are recognised by name and version written together without a separator, so different
  interfaces can be taken for duplicates: `ServiceXmlFacts.SameIdent`, `ServiceXmlFacts.KeysCollide`.
- A document without a service is accepted, an empty `<SFW>` element for one (`ServiceXmlFacts.EmptyDocumentAccepted`):
  an accepted document has no interfaces exactly if no `<service>` starts before its end,
  `ServiceXmlEnds.DocumentServices`. `addService` then reads the first of no interfaces:
  `QServiceManager.QServiceManager.AddService`.
- A document that breaks off inside a text element is accepted, with what was read so far:
  `ServiceXmlEnds.BrokenDocumentAccepted`. `ServiceXmlEnds.DocumentEnds` says exactly which accepted documents were read
  up to an error and not to their end.
- Aborting the registration of a service whose plug-in does not load unregisters by name, and so deletes services
  registered earlier under the same name: `ServiceUndo.UndoExactly`, `ServiceUndo.NamesakeUndone`. A failed addition reports no error exactly if the
  document was read and describes an inter-process service: `QServiceManager.QServiceManager.AddService`.
- A request ends with neither an error nor an object exactly if the descriptor it was given, or that was looked up for
  it, is that of an inter-process service, and loading it gives none: `Operations.NullWithoutError`.
- `interfaceDefault` promises to set the last error (`src/serviceframework/databasemanager.cpp:514`), but leaves that of
  an earlier call exactly if it finds a default, every database it looked in was open already, and the user's default of
  the name is not an external one: `DatabaseManager.KeepsError`. `DatabaseManager.StaleError` and
  `DatabaseManager.StaleErrorTables` give an instance. The service manager then throws the default away:
  `QServiceManager.QServiceManager.InterfaceDefault`.

## Model

| member | source | states |
|---|---|---|
| ReadWriteLock.ReachableInvariant | src/publishsubscribe/qsystemreadwritelock_win.cpp:175-294 | in every state of every run of any number of threads, the three counters equal the numbers of threads in their phases, and there are tokens wherever a waiter must not be left without one |
| ReadWriteLock.MutualExclusion | src/publishsubscribe/qsystemreadwritelock_win.cpp:175-294 | accessCount is -1 exactly while one writer and no reader holds the lock, and k >= 0 exactly while k readers and no writer hold it |
| ReadWriteLock.SleepingReaderCanEnter | src/publishsubscribe/qsystemreadwritelock_win.cpp:193-200 | while no writer holds or waits, each sleeping reader has a token and, having taken it, is admitted |
| ReadWriteLock.FreeLockHasRunnableWaiter | src/publishsubscribe/qsystemreadwritelock_win.cpp:235-242 | the lock is never free with every waiter blocked |
| ReadWriteLock.WaitersAdmitOne | src/publishsubscribe/qsystemreadwritelock_win.cpp:272-285 | from a free lock that someone waits for, steps of waiters alone end after a bounded number, and then one of them holds the lock |
| ReadWriteLock.WriterPreference | src/publishsubscribe/qsystemreadwritelock_win.cpp:193-242 | from the moment a writer counts itself as waiting until it is admitted, no reader is admitted, although other writers may overtake it |
| ReadWriteLock.CountersFit | src/publishsubscribe/qsystemreadwritelock_win.cpp:200-248 | with at most 2^31-1 threads no counter leaves its 32-bit word, so the overflow check never fires |
| ReadWriteLock.HolderHasCount | src/publishsubscribe/qsystemreadwritelock_win.cpp:270-276 | a holder never trips the check for unlocking an unlocked lock |
| ReadWriteLock.AdmittedAtOnce | src/publishsubscribe/qsystemreadwritelock_win.cpp:193-253 | in every reachable state a reader is admitted at once exactly if nobody writes and no writer waits or was woken, a writer exactly if nobody reads or writes |
| ReadWriteLock.CreateAgain | src/publishsubscribe/qsystemreadwritelock_win.cpp:105-115 | zeroing the counters of a lock in use keeps the invariant exactly if every thread is idle |
| ReadWriteLock.SystemReadWriteLock.constructor | src/publishsubscribe/qsystemreadwritelock_win.cpp:76-118 | the lock is initialised exactly if one of five tries gets the shared memory and, in Create mode, the mutex is got; only then and only in Create mode the counters are zeroed, so the invariant holds exactly if nothing was zeroed or every thread is idle; otherwise the right error |
| ReadWriteLock.Attach | src/publishsubscribe/qsystemreadwritelock_win.cpp:83-98 | no error exactly if one of the tries attaches, or creates where there is nothing to attach to; else the error of the last |
| ReadWriteLock.StrayUnlock | src/publishsubscribe/qsystemreadwritelock_win.cpp:256-294 | an unlock by a thread that does not hold the lock keeps the invariant exactly if nobody holds it, which is when the check for unlocking an unlocked lock fires |
| ReadWriteLock.SystemReadWriteLock.BeginRead | src/publishsubscribe/qsystemreadwritelock_win.cpp:175-193 | lockForRead up to its first wait or return: unless refused, a reader is admitted at once exactly if nobody writes and no writer waits, one more reader then and no other counter or token changed, and otherwise counted as waiting; the invariant is kept; refused exactly if not initialised or the mutex fails, changing nothing |
| ReadWriteLock.SystemReadWriteLock.BeginWrite | src/publishsubscribe/qsystemreadwritelock_win.cpp:213-235 | the same for lockForWrite, admitted at once exactly if nobody holds the lock |
| ReadWriteLock.SystemReadWriteLock.AcquireReaderToken | src/publishsubscribe/qsystemreadwritelock_win.cpp:196-196 | taking a token from the reader semaphore |
| ReadWriteLock.SystemReadWriteLock.AcquireWriterToken | src/publishsubscribe/qsystemreadwritelock_win.cpp:238-238 | taking a token from the writer semaphore |
| ReadWriteLock.SystemReadWriteLock.ContinueRead | src/publishsubscribe/qsystemreadwritelock_win.cpp:193-210 | a woken reader tests the guard again: admitted, it is one reader more and one waiting reader less; else it sleeps again with every counter as it was |
| ReadWriteLock.SystemReadWriteLock.ContinueWrite | src/publishsubscribe/qsystemreadwritelock_win.cpp:235-253 | the same for a woken writer |
| ReadWriteLock.SystemReadWriteLock.Unlock | src/publishsubscribe/qsystemreadwritelock_win.cpp:256-294 | unlock by any thread, counter by counter: by a holder its check holds, one reader fewer or the writer gone, and when that frees the lock a token for one waiting writer, or else one for each waiting reader; the invariant is kept exactly if the caller holds the lock or the check fails; refused if not initialised or the mutex fails, changing nothing |
| CanonicalPath.QCanonicalPath | src/publishsubscribe/qvaluespace.cpp:344-363 | for every string the result is a slash and the non-empty segments joined by slashes |
| CanonicalPath.FillBuffer | src/publishsubscribe/qvaluespace.cpp:346-358 | the loop writes within length + 1 slots |
| CanonicalPath.WrittenFits | src/publishsubscribe/qvaluespace.cpp:346-358 | the writes need one slot more than the input at most, and only if the input does not start with a slash |
| CanonicalPath.CanonicalIdempotent | src/publishsubscribe/qvaluespace.cpp:344-363 | canonical paths are their own canonical path, and have the same segments |
| CanonicalPath.CdAppends | src/publishsubscribe/qvaluespacesubscriber.cpp:361-372 | a relative cd appends the segments of its argument |
| CanonicalPath.UpDropsLast | src/publishsubscribe/qvaluespacesubscriber.cpp:377-394 | cdUp drops the last segment and stays at the root |
| CanonicalPath.CdThenUp | src/publishsubscribe/qvaluespacesubscriber.cpp:361-394 | cd by a relative path and as many cdUps as it has segments lead back |
| Subscriber.QValueSpaceSubscriber.constructor | src/publishsubscribe/qvaluespacesubscriber.cpp:255-259 | the path held is canonical |
| Subscriber.QValueSpaceSubscriber.SetPath | src/publishsubscribe/qvaluespacesubscriber.cpp:313-328 | the path becomes the canonical path, unless the subscriber is not connected |
| Subscriber.QValueSpaceSubscriber.Change | src/publishsubscribe/qvaluespacesubscriber.cpp:361-372 | an absolute path replaces, a relative one adds its segments |
| Subscriber.QValueSpaceSubscriber.ChangeUp | src/publishsubscribe/qvaluespacesubscriber.cpp:377-394 | the last segment goes |
| Subscriber.DownAndUp | src/publishsubscribe/qvaluespacesubscriber.cpp:361-394 | down a relative path and up again restores the subscriber |
| GConfLayer.TakeKeepsValid | src/publishsubscribe/gconflayer.cpp:195-231 | taking a reference keeps paths and records one to one and each count equal to the references given out |
| GConfLayer.GiveKeepsValid | src/publishsubscribe/gconflayer.cpp:257-270 | so does giving one back, and the record goes with the last one |
| GConfLayer.TakeThenGive | src/publishsubscribe/gconflayer.cpp:80-168 | a reference taken and given back leaves the handles exactly as they were |
| GConfLayer.KeyParts | src/publishsubscribe/gconflayer.cpp:96-168 | cutting a name at its last slash and putting the parts together below a handle gives the key of all segments |
| GConfLayer.KeyBelow | src/publishsubscribe/gconflayer.cpp:272-332 | a canonical name below a canonical path names the key of their segments together |
| GConfLayer.GConfLayer.GetItem | src/publishsubscribe/gconflayer.cpp:195-231 | the handle of a path whose segments are those of the parent and the name together, made on first use, with one more reference; refused exactly for an empty path, a double slash or a dead parent |
| GConfLayer.GConfLayer.TakeReference | src/publishsubscribe/gconflayer.cpp:218-230 | the end of getItem |
| GConfLayer.GConfLayer.DoRemoveHandle | src/publishsubscribe/gconflayer.cpp:257-270 | one reference goes, and with the last one the record |
| GConfLayer.GConfLayer.SetProperty | src/publishsubscribe/gconflayer.cpp:233-249 | only live handles are monitored |
| GConfLayer.GConfLayer.GetValue | src/publishsubscribe/gconflayer.cpp:96-168 | reads the key that cutting the name at its last slash leads to, or nothing if that part is refused or there is neither such a part nor a handle; for canonical names that is the key canon(path + / + name), and nothing if the store has none; the handles and all counts are as before |
| GConfLayer.GConfLayer.ValueOf | src/publishsubscribe/gconflayer.cpp:96-168 | reads the handle's own key, unless that is the root, and leaves the handles as it found them |
| GConfLayer.GConfLayer.SetValue | src/publishsubscribe/gconflayer.cpp:272-332 | writes exactly the key that the name leads to and no other, and leaves the handles as it found them; for a name with two slashes in a row before its last one getItem refuses and the source uses its null record: aborted, with nothing changed |
| GConfLayer.GConfLayer.RemoveValue | src/publishsubscribe/gconflayer.cpp:345-372 | for canonical names every key whose segments begin with those of path and name is gone, and every other key has its old value; the handles stay as they are |
| GConfLayer.PublishThenSubscribe | src/publishsubscribe/gconflayer.cpp:80-332 | what a publisher sets under any spelling of path and name is read by both ends, and all references are back where they were |
| GConfLayer.SetThenRemove | src/publishsubscribe/gconflayer.cpp:272-372 | setting a name and removing it takes out the key and all below it, and nothing else |
| GConfLayer.PublishThenRemove | src/publishsubscribe/gconflayer.cpp:80-372 | what is published and then removed is read by neither end, under any spelling; what was published under another name is read as before |
| LayerPath.JoinSegments | src/publishsubscribe/gconflayer.cpp:195-216 | joining a path and a name, with or without slashes where they meet, gives the segments of both |
| GConfLayer.GConfLayer.IsLive | src/publishsubscribe/gconflayer_p.h:115-125 | finds exactly the live records |
| RegistryLayer.RegistryLayer.IsLive | src/publishsubscribe/registrylayer_win_p.h:136-147 | finds exactly the live handles |
| RegistryLayer.RegistryLayer.Item | src/publishsubscribe/registrylayer_win.cpp:359-397 | the handle of the joined path, interned by path, with one more reference; the invariant of all tables holds with that reference in the caller's hands |
| RegistryLayer.RegistryLayer.RemoveHandle | src/publishsubscribe/registrylayer_win.cpp:480-502 | one reference goes; a handle that loses its last one leaves all tables, its key is closed if no other handle maps to it, exactly the proxy entries standing for handles that went are gone, and their proxies' references with them |
| RegistryLayer.RegistryLayer.ReleaseProxies | src/publishsubscribe/registrylayer_win.cpp:491-496 | the loop over the proxies of a dying handle, although one removal deletes all equal pairs and the list has one entry for each |
| RegistryLayer.RegistryLayer.CloseRegistryKey | src/publishsubscribe/registrylayer_win.cpp:504-526 | the key is closed, and its wait given up, exactly if no other handle maps to it |
| RegistryLayer.RegistryLayer.OpenRegistryKey | src/publishsubscribe/registrylayer_win.cpp:866-916 | a handle without a key gets none if the registry denies its key, a new key if the registry has it, and else, for a path parent/name, its parent's key as a value exactly if the parent can be opened and lists the name; every reference taken on the way is given back; a notification is queued for each deleted key that is enumerated |
| RegistryLayer.RegistryLayer.CreateRegistryKey | src/publishsubscribe/registrylayer_win.cpp:918-941 | a key that is opened or created is stored and open, and a new one is added to the registry; a handle that has one keeps it; new exactly if the registry had none; after a failure the flag returned is arbitrary, as in the source it is not set |
| RegistryLayer.RegistryLayer.Children | src/publishsubscribe/registrylayer_win.cpp:301-357 | opens the key of the handle; the names are those that the handle, or a new one of its path, would have listed before; a notification is queued for each enumeration of a deleted key, the handle's or one on the way |
| RegistryLayer.RegistryLayer.SetProperty | src/publishsubscribe/registrylayer_win.cpp:399-478 | watching a path: the nearest path upwards that can be opened stands for it by one entry that owns one reference, and its key is waited for if the system allows it; nothing else goes |
| RegistryLayer.RegistryLayer.Climb | src/publishsubscribe/registrylayer_win.cpp:410-434 | the loop up the path lands on the nearest path that can be opened, and gives back every handle tried for nothing |
| RegistryLayer.RegistryLayer.PassEntries | src/publishsubscribe/registrylayer_win.cpp:807-818 | every path that can be opened by now gets its key, loses its entry and is signalled, and nothing else is signalled that has no key or was not stood for; the key of each is waited for if the system does not refuse; as long as the handle lives just the former are signalled, in their order, and all other entries stay as they were |
| RegistryLayer.RegistryLayer.EmitHandleChanged | src/publishsubscribe/registrylayer_win.cpp:785-864 | each handle of the key is signalled and passes its entries on, in turn, signalling exactly these and waiting for their keys where the system does not refuse; then the wait is set up again, given up, or the key is closed and every handle of it watched anew |
| RegistryLayer.RegistryLayer.Rearm | src/publishsubscribe/registrylayer_win.cpp:821-863 | the three ends of the notification, with all handles of a deleted key covered by a key or an entry, whose key is waited for if the system does not refuse |
| RegistryLayer.RegistryLayer.Forget | src/publishsubscribe/registrylayer_win.cpp:837-842 | no handle maps to the key any more and it is closed |
| RegistryTables.KeyCreated | src/publishsubscribe/registrylayer_win.cpp:918-941 | creating a key adds it and those above it that are missing, each listed in the one above, and changes no other |
| RegistryTables.TakeKeeps | src/publishsubscribe/registrylayer_win.cpp:359-397 | the invariant of the handle, proxy and key tables after item |
| RegistryTables.ClosedKeeps | src/publishsubscribe/registrylayer_win.cpp:504-526 | exactly the keys that some handle maps to stay open, and only open keys are waited for |
| RegistryTables.LastReference | src/publishsubscribe/registrylayer_win.cpp:480-502 | the last reference: the handle is no proxy for anything, and the entries standing for it own the references to be given back |
| RegistryTables.DecrementKeeps | src/publishsubscribe/registrylayer_win.cpp:480-502 | a reference that is not the last one |
| RegistryTables.DroppedKeeps | src/publishsubscribe/registrylayer_win.cpp:480-502 | a dying handle without entries leaves all tables consistently |
| RegistryOpening.OpeningKeeps | src/publishsubscribe/registrylayer_win.cpp:866-916 | opening a key keeps the invariant with the same references in the callers' hands |
| RegistryOpening.OpeningAnswers | src/publishsubscribe/registrylayer_win.cpp:866-916 | opening succeeds exactly if the registry has the key, or a value of that name below a parent that can be opened; and it changes no later answer |
| RegistryOpening.KeyOpened | src/publishsubscribe/registrylayer_win.cpp:876-886 | a key of the registry is opened with a new key of that path, and one that is denied is not |
| RegistryOpening.ValueOpened | src/publishsubscribe/registrylayer_win.cpp:887-915 | a path parent/name that is no key gets a key exactly if the parent can be opened and lists name; if the parent has no handle, that is if the registry has the parent as a key, not denied, with that name; it is then a value handle with the key of the parent |
| RegistryOpening.OpeningOpens | src/publishsubscribe/registrylayer_win.cpp:866-916 | all that opening a handle without a key can come to, told from the registry and the path cut at its last slash |
| RegistryPublish.NearestIsNearest | src/publishsubscribe/registrylayer_win.cpp:399-434 | the climb ends at the longest of a path and what is before its slashes that can be opened, or the root, and fails if none of them can |
| RegistryPublish.WithProxyKeeps | src/publishsubscribe/registrylayer_win.cpp:414-419 | the reference taken for a proxy becomes the entry's; the proxy is a strict ancestor |
| RegistryNotify.NoOrphanWait | src/publishsubscribe/registrylayer_win.cpp:791-801 | a key that no handle maps to is neither open nor waited for, so the first branch of emitHandleChanged is never taken |
| RegistryNotify.ForgottenKeeps | src/publishsubscribe/registrylayer_win.cpp:837-842 | closing a deleted key and taking all of its handles off it keeps the invariant |
| Version.VersionRoundTrip | src/serviceframework/servicemetadata.cpp:674-708 | writing major.minor and parsing it gives both numbers back exactly up to 2^31-1, and larger ones are rejected; major 0 only passes in filters |
| Version.ParsedRange | src/serviceframework/servicemetadata.cpp:693-708 | parsed numbers fit an int and the major one is at least 1 |
| Version.Grammar | src/serviceframework/servicemetadata.cpp:674-708 | a version is a dot with digits on both sides and none other, neither number with a leading 0 unless it is all 0, and the first one not 0 for the metadata parser; parsing gives the two numbers if they are below 2^31 |
| Version.NoVersion | src/serviceframework/servicemetadata.cpp:674-708 | nothing else is a version |
| Version.GreaterThanOrder | src/serviceframework/servicemetadata.cpp:660-672 | greaterThan is a strict order whose ties are exactly the strings that parse to the same version |
| Version.FilterAgrees | src/serviceframework/qservicefilter.cpp:256-283 | the filter's parser agrees with the metadata parser on all strings that one accepts, and beyond them accepts only versions with major 0 |
| ServiceFilter.MoreCapabilities | src/serviceframework/qservicefilter.cpp:84-135 | asking for more capabilities narrows MatchMinimum and widens MatchLoadable; the empty list is a wildcard under the one and means no capabilities under the other |
| ServiceFilter.FilterMeans | src/serviceframework/qservicefilter.cpp:84-135 | what a filter matches, in its own fields: the names, the version, under MatchMinimum every capability of the filter among those of the interface, under MatchLoadable the converse, and each custom attribute with its value |
| ServiceFilter.QServiceFilter.constructor | src/serviceframework/qservicefilter.cpp:140-147 | a new filter matches everything |
| ServiceFilter.QServiceFilter.SetServiceName | src/serviceframework/qservicefilter.cpp:214-217 | sets the name and nothing else |
| ServiceFilter.QServiceFilter.SetInterface | src/serviceframework/qservicefilter.cpp:233-283 | sets name, version and rule together, or nothing at all for a version without a name or text that is no version |
| ServiceFilter.QServiceFilter.SetCustomAttribute | src/serviceframework/qservicefilter.cpp:342-345 | sets one attribute |
| ServiceFilter.QServiceFilter.ClearCustomAttribute | src/serviceframework/qservicefilter.cpp:368-374 | clears one attribute, or all for an empty key |
| ServiceFilter.QServiceFilter.SetCapabilities | src/serviceframework/qservicefilter.cpp:407-411 | sets the list and the rule |
| ServiceFilter.FilterForVersion | src/serviceframework/qservicefilter.cpp:233-283 | a filter for a version written out matches exactly that version, or all that are not below it |
| ServiceMetaData.ServiceMetaData.ExtractMetadata | src/serviceframework/servicemetadata.cpp:218-337 | the token loops compute the same as folds over the tokens, which ServiceXmlRoundTrip.DocumentMeans says the meaning of; what is read is sound, and nothing is kept on an error |
| ServiceMetaData.ServiceMetaData.ProcessVersionElement | src/serviceframework/servicemetadata.cpp:351-397 | the loop over <SFW> |
| ServiceMetaData.ServiceMetaData.ProcessServiceElement | src/serviceframework/servicemetadata.cpp:402-505 | the loop over <service> |
| ServiceMetaData.ServiceMetaData.CheckService | src/serviceframework/servicemetadata.cpp:464-496 | the checks at the end of a service, in their order |
| ServiceMetaData.ServiceMetaData.ProcessInterfaceElement | src/serviceframework/servicemetadata.cpp:510-628 | the loop over <interface> |
| ServiceMetaData.ServiceMetaData.AddInterface | src/serviceframework/servicemetadata.cpp:606-627 | an interface that is new is listed, and indexed if it is the latest of its name |
| ServiceMetaData.ServiceMetaData.LatestInterfaces | src/serviceframework/servicemetadata.cpp:639-649 | one interface of each name, and for every interface one of its name that is not below it in major and minor number |
| ServiceMetaData.ServiceMetaData.ClearMetadata | src/serviceframework/servicemetadata.cpp:714-724 | everything but the last error is cleared |
| ServiceXmlFacts.DocumentSound | src/serviceframework/servicemetadata.cpp:218-337 | over every token stream: accepted interfaces are pairwise different, the latest index has exactly the lower-case names and for each the place of the greatest version, and all interfaces carry the service's data |
| ServiceXmlFacts.DistinctKeys | src/serviceframework/servicemetadata.cpp:604-614 | interfaces of one name and version are duplicates |
| ServiceXmlFacts.SameIdent | src/serviceframework/servicemetadata.cpp:604-614 | when two interfaces count as duplicates, exactly |
| ServiceXmlFacts.KeysCollide | src/serviceframework/servicemetadata.cpp:604-614 | foo1 1.0 and foo 11.0 count as duplicates |
| ServiceXmlFacts.AcceptedService | src/serviceframework/servicemetadata.cpp:402-505 | an accepted service has exactly one location by one of the two tags, the type that tag means, a name, and interfaces that all carry these |
| ServiceXmlFacts.DocumentPlaced | src/serviceframework/servicemetadata.cpp:424-444 | an accepted location never begins like a stored inter-process address |
| ServiceXmlFacts.EmptyDocumentAccepted | src/serviceframework/servicemetadata.cpp:351-397 | an instance: an empty <SFW> element is accepted with no interfaces |
| ServiceXmlEnds.DocumentServices | src/serviceframework/servicemetadata.cpp:218-397 | over every token stream: an accepted document has no interfaces exactly if no <service> starts before the document ends |
| ServiceXmlEnds.DocumentEnds | src/serviceframework/servicemetadata.cpp:218-628 | over every token stream: an accepted document was read up to a reading error exactly if a text element in it breaks off, by a child element or by the end of the tokens or the document |
| ServiceXmlEnds.BrokenDocumentAccepted | src/serviceframework/servicemetadata.cpp:402-462 | a document that breaks off in the description of its service is accepted, with its interface |
| ServiceXmlItems.InterfaceMeans | src/serviceframework/servicemetadata.cpp:510-628 | an interface whose elements hold text, in any order and with anything blank between them: rejected with the error of the first offending element (unknown, a wrong version, a custom property without a key or with one that was there), or else with what is missing or there twice, or as a duplicate; otherwise it is what the texts say |
| ServiceXmlParts.ServiceMeans | src/serviceframework/servicemetadata.cpp:402-505 | the same for a service with such interfaces: an address where the version knows none, a location with the prefix, an unknown tag or a bad interface is the error, if it is the first; two kinds of location override it; then what is missing or there twice |
| ServiceXmlRoundTrip.DocumentMeans | src/serviceframework/servicemetadata.cpp:218-397 | every document with one service, alone or in an SFW element: no version, or none that is one, is InvalidXmlVersion, above 1.1 is UnsupportedXmlVersion; addresses are known exactly in 1.1, and a service alone counts as 1.0; otherwise it is accepted or rejected as its service is |
| ServiceXmlRoundTrip.RoundTrip | src/serviceframework/servicemetadata.cpp:218-628 | every describable service is read back as it was from a service element alone or one in an SFW element of version 1.0 or 1.1, exactly if an address is only given in 1.1 and no two of its interfaces count as duplicates; otherwise the error is UnsupportedIpc or DuplicatedInterface, and for any other version InvalidXmlVersion or UnsupportedXmlVersion |
| ServiceDatabase.ServiceDatabase.Open | src/serviceframework/servicedatabase.cpp:125-209 | a database is open afterwards or an error is set |
| ServiceDatabase.ServiceDatabase.BeginTransaction | src/serviceframework/servicedatabase.cpp:2128-2153 | one transaction at a time |
| ServiceDatabase.ServiceDatabase.CommitTransaction | src/serviceframework/servicedatabase.cpp:2162-2173 | commits or stays in the transaction |
| ServiceDatabase.ServiceDatabase.RollbackTransaction | src/serviceframework/servicedatabase.cpp:2182-2193 | restores the tables, keeping the last error |
| ServiceDatabase.ServiceDatabase.RegisterService | src/serviceframework/servicedatabase.cpp:225-506 | all rows of the service or none, whichever statements the engine refuses: on failure an error is set, and unless a rollback was refused the tables are as before and no transaction is open; without refusals it succeeds exactly if location and interfaces are free and the defaults can be read, with the right error otherwise |
| ServiceDatabase.ServiceDatabase.InsertInterfaceData | src/serviceframework/servicedatabase.cpp:645-734 | the row of an interface and its properties, custom ones under their prefix |
| ServiceDatabase.ServiceDatabase.UnregisterService | src/serviceframework/servicedatabase.cpp:1428-1678 | all rows of the name go and the defaults that pointed into it are re-elected, or nothing changes, an error is set, and no transaction is open unless a rollback was refused; without refusals it fails exactly if the name is unknown |
| ServiceDatabase.ServiceDatabase.DeleteRows | src/serviceframework/servicedatabase.cpp:1584-1624 | exactly the rows of the given identifiers go |
| ServiceDatabase.ServiceDatabase.ReelectDefaults | src/serviceframework/servicedatabase.cpp:1626-1669 | every affected default moves to a greatest remaining version or goes, all others stay |
| ServiceDatabase.ServiceDatabase.SetInterfaceDefault | src/serviceframework/servicedatabase.cpp:1289-1409 | the default of the name, in any case of letters, is the row of the descriptor or the external identifier, or nothing changes, an error is set, and no transaction is open unless a rollback was refused; without refusals it fails exactly if there is no such row |
| ServiceDatabase.ServiceDatabase.InterfaceDefault | src/serviceframework/servicedatabase.cpp:1152-1269 | the descriptor of the default's row, the external identifier, or not found, and nothing changes |
| ServiceDatabase.ServiceDatabase.GetInterface | src/serviceframework/servicedatabase.cpp:985-1069 | the descriptor of the row with the identifier, or not found exactly if there is none |
| ServiceDatabase.ServiceDatabase.GetInterfaceId | src/serviceframework/servicedatabase.cpp:518-532 | the identifier of the descriptor's row |
| ServiceDatabase.ServiceDatabase.GetInterfaces | src/serviceframework/servicedatabase.cpp:822-970 | exactly the rows whose descriptor has the names, version, capabilities and custom attributes asked for, once each; the exit for a corrupt database is taken exactly if a selected interface stores no property |
| ServiceDatabase.ServiceDatabase.CheckDescriptor | src/serviceframework/servicedatabase.cpp:903-955 | passes exactly if every capability asked for is one of the descriptor under MatchMinimum, the other way round under MatchLoadable, and every custom attribute asked for has its value |
| ServiceDatabase.ServiceDatabase.ExternalDefaultsInfo | src/serviceframework/servicedatabase.cpp:549-584 | the defaults that are no interface here, once each |
| ServiceDatabase.ServiceDatabase.RemoveExternalDefault | src/serviceframework/servicedatabase.cpp:1976-2031 | all defaults of an external identifier go; a local one is refused; on failure an error is set, nothing changes, and no transaction is open unless a rollback was refused |
| ServiceDatabase.ServiceDatabase.PopulateInterfaceProperties | src/serviceframework/servicedatabase.cpp:2208-2256 | the stored capabilities, description and custom attributes, or an error exactly if none are stored |
| ServiceDatabase.ServiceDatabase.PopulateServiceProperties | src/serviceframework/servicedatabase.cpp:2271-2311 | the stored description |
| ServiceUpdates.RegisteredKeeps | src/serviceframework/servicedatabase.cpp:225-506 | registering keeps integrity, one default for each implemented name, and locality of defaults |
| ServiceUpdates.UnregisteredKeeps | src/serviceframework/servicedatabase.cpp:1428-1678 | so does unregistering |
| ServiceUpdates.WithDefaultKeeps | src/serviceframework/servicedatabase.cpp:1289-1409 | so does choosing a default, and only that name's default changes |
| ServiceUpdates.Reelection | src/serviceframework/servicedatabase.cpp:1551-1669 | a default that pointed into the service is a greatest remaining version of its name or gone if none remains; every other one is unchanged, and none is new |
| ServiceRows.RegisteredTables | src/serviceframework/servicedatabase.cpp:338-506 | row by row: one new service, one new interface for each of its interfaces, and a default for each name that had none, which is the latest of the name; nothing goes |
| ServiceRows.UnregisteredTables | src/serviceframework/servicedatabase.cpp:1428-1624 | row by row: the services of the name, their interfaces and the properties of both go, and no others |
| ServiceRows.UnregisteredDefaults | src/serviceframework/servicedatabase.cpp:1551-1669 | each default stays with its interface, or moves to one left of its name with no greater version left, or goes if none is left |
| ServiceRows.DefaultSet | src/serviceframework/servicedatabase.cpp:1289-1409 | the default of the name is the one chosen, all others are as before |
| Text.SameNameLetters | src/serviceframework/servicedatabase.cpp:863-867 | names are the same exactly if they differ in nothing but the case of the letters A to Z |
| ServiceUndo.Undo | src/serviceframework/servicedatabase.cpp:338-506 | registering a service of a new name and unregistering it restores all five tables, exactly if none of its interface names was implemented without a default |
| ServiceUndo.UndoExactly | src/serviceframework/servicedatabase.cpp:1428-1678 | for any name: it restores them exactly if, besides, the name was new, since unregistering deletes every service of the name |
| ServiceUndo.NamesakeUndone | src/serviceframework/servicedatabase.cpp:1428-1678 | a case in which it does not: a service registered and unregistered under the name of another one, which is deleted |
| ServiceStorage.StorageRoundTrip | src/serviceframework/servicedatabase.cpp:645-734 | register, then read: each descriptor comes back exactly, location and type through the prefix, capabilities through join and split, custom attributes through their prefix |
| ServiceStorage.RowMatchesNames | src/serviceframework/servicedatabase.cpp:847-900 | the query's conditions are the documented rules for names and versions |
| ServiceStorage.JoinedOnce | src/serviceframework/servicedatabase.cpp:856-862 | each interface joins with exactly one service |
| ServiceRuns.RunSound | src/serviceframework/servicedatabase.cpp:225-1678 | after any sequence of successful and failed changes: integrity, and exactly one default for each implemented name, which implements it |
| ServiceRuns.RunPopulated | src/serviceframework/servicedatabase.cpp:2208-2256 | if every interface registered stored a property, every query of every state can be answered |
| DatabaseManager.StaleError | src/serviceframework/databasemanager.cpp:516-603 | asking for an interface that is not there and then for one that is: the second is found, with the error of the first |
| DatabaseManager.StaleErrorTables | src/serviceframework/databasemanager.cpp:516-603 | tables of which that can be said |
| ServiceRuns.InterleavingKeeps | src/serviceframework/databasemanager.cpp:653-684 | however changes to the two databases interleave, each external default implements its name as long as its row exists |
| ServiceScopes.KeptExternal | src/serviceframework/databasemanager.cpp:774-797 | an external default survives the opening of the system database only if all implementations of its name have stored a property, and it is a newest one and newer than all of the user's own; and certainly if besides it is the only newest in the system's database; if one has stored none, the name is left without a default |
| ServiceScopes.TiedExternalLost | src/serviceframework/databasemanager.cpp:774-797 | so one that ties with an implementation of the user's own is lost |
| ServiceScopes.ValidExternalLost | src/serviceframework/databasemanager.cpp:785-785 | a valid choice of an older version at system scope is lost |
| ServiceScopes.ReadableExternalLost | src/serviceframework/databasemanager.cpp:774-797 | the only newest implementation, which has stored a property, is lost and not replaced, because another service implements the interface and has stored none |
| ServiceScopes.BareSiblingSound | src/serviceframework/databasemanager.cpp:774-797 | the databases of that case meet all invariants |
| ServiceScopes.FoundIfReadable | src/serviceframework/databasemanager.cpp:516-603 | where the implementations of a name have stored a property and the databases have a default for it if they implement it, a default is found exactly if the name is implemented |
| ServiceScopes.FoundInOrder | src/serviceframework/databasemanager.cpp:516-603 | so it is for every name in databases in which each interface has a default and stored a property |
| ServiceScopes.StaleUnreadable | src/serviceframework/databasemanager.cpp:543-562 | a stale default of an implemented name is not replaced if an implementation has stored no property |
| ServiceScopes.CleaningStep | src/serviceframework/databasemanager.cpp:783-797 | each external default in turn is given up and its name gets the newest implementation in both scopes; those dealt with before stay as they are |
| ServiceScopes.MoreAnswers | src/serviceframework/databasemanager.cpp:426-446 | answers of the two scopes together are the complete answer, once each, marked with their scopes, the user's first |
| ServiceScopes.NewestAnswer | src/serviceframework/databasemanager.cpp:807-820 | the latest descriptor of the answers is a newest row in both databases, and one of the user's own if that is as new |
| ServiceScopes.LinkedSet | src/serviceframework/databasemanager.cpp:666-684 | a default set to a row at system scope keeps the links between the databases |
| DatabaseManager.DatabaseManager.OpenDb | src/serviceframework/databasemanager.cpp:712-801 | nothing but user defaults changes; opening the system database settles every user default, and leaves the name of each external one the newest implementation if all of them can be read, or no default |
| DatabaseManager.DatabaseManager.ResetExternalDefaults | src/serviceframework/databasemanager.cpp:774-797 | the clean-up loop, for all tables |
| DatabaseManager.DatabaseManager.ResetDefault | src/serviceframework/databasemanager.cpp:543-562 | a stale default is given up and replaced by the newest implementation in both scopes, which is returned, or by none exactly if there is none or not all can be read |
| DatabaseManager.DatabaseManager.GetInterfaces | src/serviceframework/databasemanager.cpp:416-458 | exactly the rows of the scopes asked whose descriptor has what the filter asks for, marked with their scope, or an error and none; without faults an error exactly if a row selected has stored no property |
| DatabaseManager.DatabaseManager.LatestIndex | src/serviceframework/databasemanager.cpp:807-820 | the first descriptor of the greatest major and, among those, minor number |
| DatabaseManager.DatabaseManager.SetInterfaceDefault | src/serviceframework/databasemanager.cpp:653-705 | the default is the row of the descriptor in the scope the descriptor names; a user-scope descriptor is refused at system scope; fails exactly if there is no such row |
| DatabaseManager.DatabaseManager.SetServiceDefault | src/serviceframework/databasemanager.cpp:615-644 | the newest implementation by that service becomes the default; without faults that fails exactly if there is none or not all can be read; no transaction is left open unless a rollback was refused |
| DatabaseManager.DatabaseManager.InterfaceDefault | src/serviceframework/databasemanager.cpp:516-603 | a descriptor returned is of the name asked for, registered in the scope it reports, and is the default's own row; afterwards, found or not, the user default of the name is absent or refers to a row; without faults one is returned exactly in the states of Findable, and not found is reported exactly if nobody has a default or a stale one could not be replaced; with a default the last error is NoError exactly if it was before or the call did not leave it alone, which it does exactly in the states of KeepsError |
| DatabaseManager.DatabaseManager.UserDefault | src/serviceframework/databasemanager.cpp:519-574 | the search at user scope, with the same exact answer whenever it ends there |
| DatabaseManager.DatabaseManager.SystemDefault | src/serviceframework/databasemanager.cpp:578-598 | the search at system scope: found exactly if the default of the name has stored a property; the last error is left alone exactly if that database was open |
| DatabaseManager.DatabaseManager.ExternalDefault | src/serviceframework/databasemanager.cpp:528-566 | a default that names a row of the system database is found exactly if that has stored a property, or if it is gone exactly if the name is implemented and all implementations can be read; the last error is cleared unless none was found for a row that is gone |
| DatabaseManager.DatabaseManager.RegisterService | src/serviceframework/databasemanager.cpp:321-348 | registers in the database of the scope, keeping the links between the two, or changes nothing and says why; the last error is NoError exactly on success |
| DatabaseManager.DatabaseManager.UnregisterService | src/serviceframework/databasemanager.cpp:357-384 | unregisters there, or reports an unknown name; user defaults into it become stale but stay harmless; the last error is NoError exactly on success |
| QServiceManager.QServiceManager.AddService | src/serviceframework/qservicemanager.cpp:734-774 | a service is added with all of its interfaces readable as described, or nothing changes and an error is set, except exactly for an inter-process service; a plug-in service gets ServiceAlreadyExists for a path that is taken, else ImplementationAlreadyExists for an interface that is implemented, and PluginLoadingFailed only if it does not load; after a plug-in that cannot be loaded the tables are as before exactly if the name was new and no interface of it was bare; for a document that is accepted although no service starts in it, the first of no interfaces is read |
| QServiceManager.QServiceManager.InterfaceDefault | src/serviceframework/qservicemanager.cpp:892-905 | a default is returned with no error, exactly if one is found and no error of an earlier call was left; else it is thrown away |
| QServiceManager.PublishedReadsBack | src/serviceframework/qservicemanager.cpp:734-774 | from XML document to tables and back, in each kind of document that can hold the service: every interface is read as it was published |
| QServiceManager.FailuresNamed | src/serviceframework/qservicemanager.cpp:142-174 | a plug-in service that cannot be registered: ServiceAlreadyExists if its path is taken, else ImplementationAlreadyExists if a service of the name implements one of its interfaces in that version |
| QServiceManager.RegisteredReadsBack | src/serviceframework/qservicemanager.cpp:734-774 | the same for whatever the parser accepted |
| QServiceManager.ResultsOk | src/serviceframework/servicemetadata.cpp:197-208 | what the parser hands on meets all that registering relies on |
| Operations.QServiceOperationProcessor.HandleRequest | src/serviceframework/qserviceoperations.cpp:224-306 | with requests arriving whenever the event loop spins: each is handled once, in order of arrival, with its calls queued as a block; a nested call only appends; afterwards the list is empty and the guard down |
| Operations.QServiceOperationProcessor.Serve | src/serviceframework/qserviceoperations.cpp:238-302 | start, then an object or one of the three errors, then finish: the error is that of no descriptor, of a library not found, or of one that does not load, in this order, and never the last two for a service in another process |
| Operations.RequestCompletes | src/serviceframework/qserviceoperations.cpp:224-306 | each reply is started once, gets the error or object that its request determines, signals an error only if there is one, is finished once, and no assertion fails |
| Operations.EventsOfOne | src/serviceframework/qserviceoperations.cpp:224-306 | among all queued calls those of a reply are its own request's |
| Operations.NullWithoutError | src/serviceframework/qserviceoperations.cpp:273-298 | a request of either kind leaves neither error nor object exactly if the descriptor given or looked up is that of an inter-process service and loading it gives no object |
| Operations.QServiceReply.Start | src/serviceframework/qservicereply.cpp:221-235 | starts a reply that is not running; its assertion fails exactly for a finished reply |
| Operations.QServiceReply.Finish | src/serviceframework/qservicereply.cpp:244-259 | finishes once; its assertion fails exactly for a reply that is left running |
| Operations.QServiceReply.SetError | src/serviceframework/qservicereply.cpp:205-212 | signals only a change |
| Operations.QServiceReply.MakeCalls | src/serviceframework/qservicereply.cpp:205-259 | queued calls in order are the steps of the reply's state machine, and no assertion fails exactly if none does in those |

## Left out

Read/write lock:
- The relocks after a wait (`src/publishsubscribe/qsystemreadwritelock_win.cpp:197` and `:239`) are assumed to succeed, and releasing and acquiring tokens not to fail. Creating does not empty semaphores that exist, as on Windows.

Publish and subscribe:
- Values are strings; variants and their encodings, change notification by string prefix, `children` of GConf and `removeSubTree` are not modelled.
- RegistryLayer.RegistryLayer.Item: a relative path without a parent is not modelled, because opening its key recurses without end in the source.
- RegistryLayer.RegistryLayer.EmitHandleChanged: slots that run inside the signals and call the layer again are not modelled; the signals are returned.
- RegistryLayer.RegistryLayer.CreateRegistryKey: keys above the layer's base path are not modelled.
- Notifications that `setProperty` and `emitHandleChanged` queue by opening handles through parents whose keys were deleted are not returned; those of `openRegistryKey` and `children` are.
- `value`, `setValue`, `removeValue`, `removeRegistryValue`, `pruneEmptyKeys` and `sync` of the registry layer are not modelled. `value` and `pruneEmptyKeys` keep a reference they take, so they do not preserve the exact counts.
- Handles are numbers that are never used again; a freed record whose address is used again is not modelled.
- Layers, their priority, connections of subscribers to signals and interest notification are not modelled.

Service framework:
- Letter case is folded for the letters A to Z, as the SQL collation does; the parser folds more.
- ServiceDatabase.ServiceDatabase.RegisterService: takes descriptions as the parser makes them (`QServiceManager.ResultsOk` proves that it does). Security tokens and `serviceInitialized` are not modelled.
- ServiceDatabase.ServiceDatabase.Open: the creation of missing tables, and their repair by emptying all five, are not modelled.
- ServiceDatabase.ServiceDatabase.GetInterfaceId: on a connection whose rollback failed the source reads uncommitted rows; in the model the engine refuses.
- ServiceXmlRoundTrip.DocumentMeans: documents with several services, or with something other than text in a tag, are covered only by `ServiceXmlFacts.DocumentSound` and `ServiceXmlEnds.DocumentEnds`.
- SQL text, connections and `getServiceNames` are not modelled. Every failing way out of a change rolls back in the source; here that is done in one place.
- DatabaseManager.DatabaseManager.OpenDb: a database whose file was deleted is not replaced, and other processes do not change the databases while a call is running.
- Change notification by watching files is not modelled.
- QServiceManager.QServiceManager.AddService: reads the document from its start. Whether the plug-in loads is a parameter; what it does when it is installed is not modelled.
- Operations.QServiceOperationProcessor.Serve: what the databases and the plug-in loader answer comes with the request; the reply's text for logging, threads, their start and stop, the affinity assertions and slots that run inside a reply's signals are not modelled.
