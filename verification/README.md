# Preferences core of openwms — a Dafny model

This project models the preferences core of the openwms `core` service. A
preference is a key/value setting. It belongs to one of four scopes:
APPLICATION, MODULE, ROLE or USER. Preferences live in a database table and
are seeded from an XML file of initial preferences.

The model covers:

- the enums `PropertyScope` and `PreferenceType`, and the type's database column codec;
- the composite identity key `PreferenceKey` (owner, key, scope name);
- the domain `Preference` with its builder, identity and equality;
- the four file record kinds (`ApplicationPreference`, `ModulePreference`,
  `RolePreference`, `UserPreference`): their constructors, equality and
  hash codes;
- the JAXB document's lazily cached per-kind views;
- the XML DAO that indexes every file record by identity key;
- the mapper from file records to domain preferences;
- the JPA persistence port, a map from persistent key to row, whose save is
  refused (DataIntegrityViolation) when it would break the table's unique
  constraint on (key, owner);
- `PreferencesServiceImpl`:
  - the Bean Validation of its `@NotBlank` arguments (the class is
    `@Validated`), which refuses a blank key before any other check;
  - the finders and the USER-scope access guard;
  - create, update and delete, each with its event;
  - the merge of the file's initial preferences into the database
    (`reloadInitialPreferences`);
- the REST value-object mapping and the value-object converter;
- `Module` and `ModuleServiceImpl`: startup ordering and its int arithmetic,
  and the not-null, unique name and url columns that a save must respect.

Java `null` is an `Option`. A thrown exception is a `Result.Failure` carrying
the exception's kind (`Common.Error`). Several inputs become parameters:

- the persistent keys the database would generate (`newKey`, `newKeys`, `newPk`);
- the auditing clock (`now`);
- the parsed XML file (`FileLoader.Resource`).

Files and modules:

| file | module | what it holds |
|---|---|---|
| common.dfy | `Common` | Option, Result, error kinds, `hasText`, 32-bit wrap, the `Objects.hash` scheme |
| types.dfy | `PrefTypes`, `TypeConverter` | scopes, preference types, column codec |
| prefkey.dfy | `PrefKey` | the composite identity key |
| preference.dfy | `Domain` | `Preference`, builder, identity, equality |
| filerecords.dfy | `FileRecords` | XML record kinds, constructors, equals/hashCode |
| document.dfy | `FileDocument` | the `Preferences` document and its cached views |
| loader.dfy | `FileLoader` | `XMLPreferenceDaoImpl` |
| filemapper.dfy | `FileMapper` | `FilePreferenceMapper` |
| store.dfy | `PrefStore` | `JpaPreferencePersistenceAdapter` over `PreferenceEO` |
| service.dfy | `PreferencesService` | `PreferencesServiceImpl` |
| vo.dfy | `ApiMapping` | `PreferenceVOMapper`, `PreferenceVOConverter` |
| module.dfy | `Modules` | `Module`, `ModuleComparator`, `ModuleServiceImpl` |

Two places where the code tests for emptiness rather than for text:

- The USER guard of `PreferencesServiceImpl` tests the owner with `isEmpty`,
  not `hasText`, so a blank owner such as `" "` passes it. The XML
  constructors and `Module` use Spring's `hasText`, which also rejects blanks
  (`Common.HasTextIsNonEmpty` relates the two). The service's `@NotBlank`
  arguments are a third test, which trims only characters up to U+0020
  (`Common.NotBlankVersusHasText`).
- The DAO decides whether the initial-preferences file exists with `isEmpty`
  on the file name.

## Model

Paths are relative to the repository root.

| member | source | states |
|---|---|---|
| Common.Wrap32 | src/main/java/org/openwms/core/module/impl/ModuleServiceImpl.java:85 | Java `int` addition wraps: the result lies in the 32-bit range and is congruent to the exact sum modulo 2^32 |
| Common.HasTextIsNonEmpty | src/main/java/org/openwms/core/preferences/impl/PreferencesServiceImpl.java:108-112 | `hasText` implies non-empty; a non-empty string that starts with a non-blank has text, so the two checks differ only on blank strings |
| Common.NotBlankVersusHasText | src/main/java/org/openwms/core/preferences/impl/PreferencesServiceImpl.java:78 | a `@NotBlank` string is non-empty; on printable ASCII and whitespace `@NotBlank` and `hasText` agree; a control character alone passes `hasText` but not `@NotBlank`, and an em space passes `@NotBlank` but not `hasText` |
| PrefTypes.ScopeNameInjective | src/main/java/org/openwms/core/preferences/Preference.java:171-173 | distinct scopes have distinct names, so the scope name in a key identifies the scope |
| PrefTypes.GetForClazz | src/main/java/org/openwms/core/configuration/PreferenceType.java:55-57 | finds a type exactly when some type has that class name, and the found type has it |
| PrefTypes.TypeByName | src/main/java/org/openwms/core/preferences/impl/file/FilePreferenceMapper.java:68-71 | finds a type exactly when the string is some type's enum name; otherwise NotFound |
| PrefTypes.ClazzRoundTrip | src/main/java/org/openwms/core/configuration/PreferenceType.java:28-57 | looking up a type's class name gives the type back, and no two types share a class name |
| PrefTypes.TypeNameRoundTrip | src/main/java/org/openwms/core/preferences/impl/file/FilePreferenceMapper.java:68-71 | looking up a type's enum name gives the type back |
| TypeConverter.ToDatabaseColumn | src/main/java/org/openwms/core/preferences/impl/jpa/PreferenceTypeConverter.java:31-36 | null stays null; a type is stored as its class name |
| TypeConverter.ToEntityAttribute | src/main/java/org/openwms/core/preferences/impl/jpa/PreferenceTypeConverter.java:39-44 | a found type has the stored class name; an unknown class name reads as null |
| TypeConverter.ColumnRoundTrip | src/main/java/org/openwms/core/preferences/impl/jpa/PreferenceTypeConverter.java:31-44 | writing a type to the column and reading it back is the identity, null included |
| TypeConverter.ColumnRoundTripFromDb | src/main/java/org/openwms/core/preferences/impl/jpa/PreferenceTypeConverter.java:31-44 | reading a column value and writing it back gives it again iff it is null or one of the six class names |
| PrefKey.Triple | src/main/java/org/openwms/core/configuration/impl/file/PreferenceKey.java:37-39 | a key of owner, key and scope name holds exactly those three fields in that order |
| PrefKey.KeyEqualsIsEquality | src/main/java/org/openwms/core/configuration/impl/file/PreferenceKey.java:63-76 | key equality (field-wise `Arrays.equals`) is exactly value equality |
| PrefKey.KeyHashConsistent | src/main/java/org/openwms/core/configuration/impl/file/PreferenceKey.java:48-54 | equal keys have equal hash codes |
| PrefKey.KeyEquals | src/main/java/org/openwms/core/configuration/impl/file/PreferenceKey.java:64-76 | keys that `equals` calls equal (same fields, element by element) have equal hash codes |
| PrefKey.KeyHash | src/main/java/org/openwms/core/configuration/impl/file/PreferenceKey.java:48-54 | the hash code is a Java `int`: it lies in the 32-bit range |
| PrefKey.FieldOrderMatters | src/main/java/org/openwms/core/configuration/impl/file/PreferenceKey.java:63-76 | swapping two fields gives an equal key only when they are the same |
| PrefKey.TripleInjective | src/main/java/org/openwms/core/configuration/impl/file/PreferenceKey.java:37-39 | two triples are equal iff owner, key and scope name all agree |
| Domain.Build | src/main/java/org/openwms/core/preferences/Preference.java:49-65 | the built preference has a persistent key iff the builder's is non-empty, and an empty builder key is left null; every other field is copied from the builder |
| Domain.HasPersistentKey | src/main/java/org/openwms/core/preferences/Preference.java:179-181 | neither a null nor an empty key counts as persistent; a persistent key is a non-empty string |
| Domain.PrefKeyOf | src/main/java/org/openwms/core/preferences/Preference.java:171-173 | the identity is (owner, or ":APPLICATION:" when null; key; scope name); a null scope throws NullPointer |
| Domain.PrefEqualsIgnoresOnlyKeyAndTimestamp | src/main/java/org/openwms/core/preferences/Preference.java:183-188 | two preferences are equal iff they agree on everything except persistent key and modification time; `fromFile` takes part |
| Domain.KeyOfInjective | src/main/java/org/openwms/core/preferences/Preference.java:171-173 | for scoped preferences, equal identities mean equal key, scope and key owner |
| Domain.KeyOwnerCollision | src/main/java/org/openwms/core/preferences/Preference.java:171-173 | a null owner and the owner ":APPLICATION:" give the same identity owner, and only those collide |
| Domain.GroupNameDefaults | src/main/java/org/openwms/core/preferences/Preference.java:40 | a preference made with `new` is in group "GLOBAL"; a built one keeps the builder's group, null included |
| FileRecords.FileKey | src/main/java/org/openwms/core/preferences/impl/file/ApplicationPreference.java:99-101 | an application record is keyed (":APPLICATION:", key, "APPLICATION"); the others by their own owner, key and kind's scope name |
| FileRecords.FileKeyInjective | src/main/java/org/openwms/core/preferences/impl/file/ModulePreference.java:110-112 | two records share a key iff they agree on kind-scope, key, and owner (application records on key alone) |
| FileRecords.RoleAndModuleKeysDiffer | src/main/java/org/openwms/core/preferences/impl/file/RolePreference.java:114-116 | a role and a module record with the same owner and key never share an identity key |
| FileRecords.ApplicationKeysDeduplicate | src/main/java/org/openwms/core/preferences/impl/file/ApplicationPreference.java:99-101 | two application records share a key iff their keys are equal, and indexing the second then replaces the first |
| FileRecords.NewApplicationPreference | src/main/java/org/openwms/core/preferences/impl/file/ApplicationPreference.java:52-57 | succeeds iff the key has text (else IllegalArgument), with empty common fields |
| FileRecords.NewModulePreference | src/main/java/org/openwms/core/preferences/impl/file/ModulePreference.java:59-66 | succeeds iff owner and key have text (else IllegalArgument), holding exactly them |
| FileRecords.NewUserPreference | src/main/java/org/openwms/core/preferences/impl/file/UserPreference.java:54-61 | succeeds iff owner and key have text (else IllegalArgument), holding exactly them |
| FileRecords.NewRolePreferenceAsWritten | src/main/java/org/openwms/core/preferences/impl/file/RolePreference.java:59-66 | the constructor as written checks the still-null owner field and so always throws IllegalArgument |
| FileRecords.RoleConstructorRejectsValidInput | src/main/java/org/openwms/core/preferences/impl/file/RolePreference.java:59-66 | a role name and key that both have text are still rejected |
| FileRecords.NewRolePreference | src/main/java/org/openwms/core/preferences/impl/file/RolePreference.java:59-66 | the intended constructor: succeeds iff role name and key have text, holding exactly them |
| FileRecords.BuildApplicationPreference | src/main/java/org/openwms/core/preferences/impl/file/ApplicationPreference.java:59-66 | the builder copies the common fields and key without validation |
| FileRecords.BuilderSkipsValidation | src/main/java/org/openwms/core/preferences/impl/file/ApplicationPreference.java:125-169 | the builder produces a record with a null key that the constructor refuses |
| FileRecords.SetUserOwner | src/main/java/org/openwms/core/preferences/impl/file/UserPreference.java:73-80 | sets the owner and changes nothing else |
| FileRecords.SetUserKey | src/main/java/org/openwms/core/preferences/impl/file/UserPreference.java:82-89 | sets the key and changes nothing else |
| FileRecords.SettersBypassValidation | src/main/java/org/openwms/core/preferences/impl/file/UserPreference.java:73-89 | the setters can give a user record a null owner and key that the constructor refuses |
| FileRecords.FileEquals | src/main/java/org/openwms/core/preferences/impl/file/ModulePreference.java:134-161 | an application record compares kind, the five common fields and key; the owned kinds compare kind, key, owner and type only, and throw NullPointer when key and owner match but their own type is null |
| FileRecords.UntypedSelfComparison | src/main/java/org/openwms/core/preferences/impl/file/ModulePreference.java:135-160 | comparing an owned record without type with itself compares fields and throws NullPointer |
| FileRecords.EqualityExamples | src/main/java/org/openwms/core/preferences/impl/file/UserPreference.java:135-162 | concrete outcomes: a keyless application record differs from a keyed one; owned records differing only in value or description are equal; a null type throws |
| FileRecords.ApplicationHashConsistent | src/main/java/org/openwms/core/preferences/impl/file/ApplicationPreference.java:103-115 | equal application records have equal hash codes |
| FileRecords.OwnedHashBreaksEquals | src/main/java/org/openwms/core/preferences/impl/file/ModulePreference.java:120-127 | as written, two module records that `equals` calls equal have different hash codes |
| FileRecords.OwnedHashConsistent | src/main/java/org/openwms/core/preferences/impl/file/ModulePreference.java:120-161 | with the hash built from the fields `equals` compares, equal records hash equally |
| FileRecords.MixInjective | src/main/java/org/openwms/core/preferences/impl/file/RolePreference.java:126-133 | one `31 * result + h` step is injective on 32-bit results |
| FileRecords.GenericHashesDiffer | src/main/java/org/openwms/core/preferences/impl/file/GenericPreference.java:159-162 | two records whose values are "1" and "2" have different common hash codes |
| FileRecords.GenericEquals | src/main/java/org/openwms/core/preferences/impl/file/GenericPreference.java:147-156 | records that the generic `equals` calls equal (same class, same common fields) have equal common hash codes |
| FileRecords.GenericHash | src/main/java/org/openwms/core/preferences/impl/file/GenericPreference.java:158-161 | `Objects.hash` over value, type, description, minimum and maximum is a Java `int` |
| FileRecords.ApplicationHash | src/main/java/org/openwms/core/preferences/impl/file/ApplicationPreference.java:112-115 | the application hash code is a Java `int` |
| FileRecords.OwnedHashAsWritten | src/main/java/org/openwms/core/preferences/impl/file/ModulePreference.java:120-127 | the owned hash code as written, including `super.hashCode()`, is a Java `int` |
| FileRecords.OwnedHash | src/main/java/org/openwms/core/preferences/impl/file/ModulePreference.java:120-127 | the corrected owned hash code, over key, owner and type only, is a Java `int` |
| FileRecords.ArraysHashPrefixInjective | src/main/java/org/openwms/core/preferences/impl/file/GenericPreference.java:159-162 | `Arrays.hashCode` tells apart sequences that differ only in a small first element |
| FileDocument.OfKind | src/main/java/org/openwms/core/configuration/impl/file/Preferences.java:83-144 | a per-kind view is never longer than the document |
| FileDocument.OfKindMembers | src/main/java/org/openwms/core/configuration/impl/file/Preferences.java:83-144 | a record is in a kind's view iff it is in the document and of that kind |
| FileDocument.OfKindAppend | src/main/java/org/openwms/core/configuration/impl/file/Preferences.java:83-144 | filtering distributes over concatenation and keeps document order |
| FileDocument.OfKindUniform | src/main/java/org/openwms/core/configuration/impl/file/Preferences.java:83-144 | a document of one kind is its own view of that kind, and every other view is empty |
| FileDocument.ViewsPartition | src/main/java/org/openwms/core/configuration/impl/file/Preferences.java:83-144 | the four views together are a permutation of the document: same multiset and total length |
| FileDocument.GetAll | src/main/java/org/openwms/core/configuration/impl/file/Preferences.java:74-76 | returns the record list, creating an empty one on first use; never touches the cached views |
| FileDocument.GetByKind | src/main/java/org/openwms/core/configuration/impl/file/Preferences.java:83-93 | the first call filters the record list and caches the result; later calls return the cache; with neither a cache nor a list it caches empty and throws NullPointer |
| FileDocument.UninitialisedViewFailsThenEmpty | src/main/java/org/openwms/core/configuration/impl/file/Preferences.java:83-93 | on an untouched document the first view call throws, the second returns empty |
| FileDocument.ViewsAfterGetAll | src/main/java/org/openwms/core/configuration/impl/file/Preferences.java:74-93 | after `getAll` an uncached view is the filtered list |
| FileDocument.CachedViewIsStale | src/main/java/org/openwms/core/configuration/impl/file/Preferences.java:83-93 | records added after a view is cached do not appear in it |
| FileLoader.IndexAll | src/main/java/org/openwms/core/preferences/impl/file/XMLPreferenceDaoImpl.java:98-103 | indexing reports a clash iff a key repeats or is already indexed; without one every record sits under its own key and the old entries stay |
| FileLoader.IndexAllKeys | src/main/java/org/openwms/core/preferences/impl/file/XMLPreferenceDaoImpl.java:98-103 | the index holds only old keys and the records' keys, and without a clash exactly those |
| FileLoader.FindAll | src/main/java/org/openwms/core/preferences/impl/file/XMLPreferenceDaoImpl.java:76-79 | no document gives the empty list; otherwise the document's record list |
| FileLoader.Load | src/main/java/org/openwms/core/preferences/impl/file/XMLPreferenceDaoImpl.java:93-122 | no file name or missing file: nothing happens; unreadable: ResourceNotFound; unparsable: IntegrationLayer; parsed: document kept and records indexed, a repeated key giving NoUniqueResult |
| FileLoader.Reload | src/main/java/org/openwms/core/preferences/impl/file/XMLPreferenceDaoImpl.java:124-128 | reloading is loading into a cleared document and index |
| FileLoader.ReloadForgetsPriorState | src/main/java/org/openwms/core/preferences/impl/file/XMLPreferenceDaoImpl.java:124-128 | the result of a reload does not depend on the previous document or index |
| FileLoader.ReloadIndexesEveryRecord | src/main/java/org/openwms/core/preferences/impl/file/XMLPreferenceDaoImpl.java:93-111 | after a clean reload the index is exactly the file's records by key, and `findAll` returns them |
| FileLoader.DuplicateKeyFailsLoad | src/main/java/org/openwms/core/preferences/impl/file/XMLPreferenceDaoImpl.java:98-103 | two records with one key fail the load with NoUniqueResult, but the document is already kept |
| FileLoader.NothingToLoad | src/main/java/org/openwms/core/preferences/impl/file/XMLPreferenceDaoImpl.java:113-122 | without a file name or file, a reload leaves an empty DAO and `findAll` is empty |
| FileMapper.MapRecord | src/main/java/org/openwms/core/preferences/impl/file/FilePreferenceMapper.java:35-74 | fails with NotFound iff the type is no enum name; otherwise scope from the kind, `fromFile` set, no persistent key, application records ownerless, other fields copied |
| FileMapper.ToDomain | src/main/java/org/openwms/core/preferences/impl/file/FilePreferenceMapper.java:35-38 | null maps to null; otherwise the record's mapping |
| FileMapper.MapRecordPreservesKey | src/main/java/org/openwms/core/preferences/impl/file/FilePreferenceMapper.java:35-61 | a mapped preference has the record's identity iff the record is an application record or names an owner |
| FileMapper.MapRecordTotalOnKnownTypes | src/main/java/org/openwms/core/preferences/impl/file/FilePreferenceMapper.java:63-74 | a record with a known type name always maps, to that type |
| PrefStore.Persisted | src/main/java/org/openwms/core/preferences/impl/jpa/PreferenceEOMapper.java:33-57 | a row read back equals the saved preference and carries its persistent key and modification time |
| PrefStore.Save | src/main/java/org/openwms/core/preferences/impl/jpa/JpaPreferencePersistenceAdapter.java:70-83 | fails with DataIntegrityViolation iff another row has the same key and a non-null owner equal to the written row's (the UC_PREFERENCE constraint of PreferenceEO.java:50); otherwise keeps the store well formed and the constraint intact, updates an existing key in place or adds one row under the given or generated key |
| PrefStore.SaveRefusesExactlyViolations | src/main/java/org/openwms/core/preferences/impl/jpa/PreferenceEO.java:50 | on a store that meets the (key, owner) constraint, a save is refused exactly when writing the row would break it |
| PrefStore.Delete | src/main/java/org/openwms/core/preferences/impl/jpa/JpaPreferencePersistenceAdapter.java:86-91 | removes exactly the row with the preference's persistent key; otherwise nothing changes |
| PrefStore.FindBypKey | src/main/java/org/openwms/core/preferences/impl/jpa/JpaPreferencePersistenceAdapter.java:50-52 | finds a row iff its key is stored |
| PrefStore.FindAfterSave | src/main/java/org/openwms/core/preferences/impl/jpa/JpaPreferencePersistenceAdapter.java:50-83 | an insert fails iff it clashes with the unique constraint; a successful one reads back, and every other key reads as before |
| PrefStore.FindAfterDelete | src/main/java/org/openwms/core/preferences/impl/jpa/JpaPreferencePersistenceAdapter.java:50-91 | a deleted row is gone, and deleting is idempotent |
| PrefStore.FindByOwnerAndScopeAndKey | src/main/java/org/openwms/core/preferences/impl/jpa/JpaPreferencePersistenceAdapter.java:60-62 | no match gives empty; one match gives it; more fail with IncorrectResultSize |
| PrefStore.FindByOwnerAndScope | src/main/java/org/openwms/core/preferences/impl/jpa/JpaPreferencePersistenceAdapter.java:55-57 | exactly the stored rows with that owner and scope |
| PrefStore.FindByOwnerAndScopeAndGroupName | src/main/java/org/openwms/core/preferences/impl/jpa/JpaPreferencePersistenceAdapter.java:65-67 | exactly the owner-and-scope rows of that group |
| PrefStore.KeyQueryRefinesScopeQuery | src/main/java/org/openwms/core/preferences/impl/jpa/JpaPreferencePersistenceAdapter.java:55-62 | the key query is empty iff no owner-and-scope row has the key, and a found row is one of them |
| PrefStore.ValidRowHasIdentity | src/main/java/org/openwms/core/preferences/impl/jpa/PreferenceEO.java:57-110 | a row meeting the entity constraints always has an identity key |
| PrefStore.UniqueConstraintVersusIdentity | src/main/java/org/openwms/core/preferences/impl/jpa/PreferenceEO.java:50 | the (key, owner) constraint refuses two owned rows that differ only in scope, and admits two ownerless rows with one identity |
| PrefStore.OwnedLookupIsUnique | src/main/java/org/openwms/core/preferences/impl/jpa/PreferenceEO.java:50 | under the unique constraint a lookup with an owner cannot fail with IncorrectResultSize |
| PreferencesService.SaveInternal | src/main/java/org/openwms/core/preferences/impl/PreferencesServiceImpl.java:159-163 | fails with DataIntegrityViolation exactly when the port's save does; otherwise saves through the port, keeps the service valid and appends one event of the given kind carrying the saved row |
| PreferencesService.FindByPKey | src/main/java/org/openwms/core/preferences/impl/PreferencesServiceImpl.java:78-79 | a blank key is refused with ConstraintViolation by `@NotBlank` (the class is `@Validated`, line 54); otherwise the stored row, or NotFound |
| PreferencesService.FindByPKeyInternal | src/main/java/org/openwms/core/preferences/impl/PreferencesServiceImpl.java:82-86 | succeeds iff the key is stored, with the stored row; NotFound otherwise |
| PreferencesService.FindForOwnerAndScope | src/main/java/org/openwms/core/preferences/impl/PreferencesServiceImpl.java:102-112 | NotAuthorized iff the scope is USER and the owner null or empty; otherwise exactly the matching rows |
| PreferencesService.AccessDenied | src/main/java/org/openwms/core/preferences/impl/PreferencesServiceImpl.java:108-112 | the guard refuses only in USER scope, and only an owner without text |
| PreferencesService.BlankOwnerPassesGuard | src/main/java/org/openwms/core/preferences/impl/PreferencesServiceImpl.java:108-112 | a blank owner such as " " has no text, yet passes the USER guard, which tests only for null or empty |
| PreferencesService.FindForOwnerAndScopeAndKey | src/main/java/org/openwms/core/preferences/impl/PreferencesServiceImpl.java:119-122 | a blank key: ConstraintViolation by `@NotBlank` (the class is `@Validated`, line 54), before the guard; then the same guard, then the port's single-row lookup |
| PreferencesService.FindForScopeOwnerGroupName | src/main/java/org/openwms/core/preferences/impl/PreferencesServiceImpl.java:129-133 | fails iff the group name is blank (ConstraintViolation, by `@NotBlank` (the class is `@Validated`, line 54)) or the guard refuses (NotAuthorized); otherwise exactly the matching rows of the group |
| PreferencesService.ExistsForOwnerAndScopeAndKey | src/main/java/org/openwms/core/preferences/impl/PreferencesServiceImpl.java:140-142 | a blank key: ConstraintViolation by `@NotBlank` (the class is `@Validated`, line 54); otherwise true iff some row matches, failing only when several do; no owner guard |
| PreferencesService.GuardCoversFindersOnly | src/main/java/org/openwms/core/preferences/impl/PreferencesServiceImpl.java:102-142 | a blank key or group name is refused first; with a non-blank one, the three USER finders refuse a missing owner while the existence check answers |
| PreferencesService.ExistsAgreesWithFind | src/main/java/org/openwms/core/preferences/impl/PreferencesServiceImpl.java:119-142 | when the guard passes, existence is true iff the finder finds a row |
| PreferencesService.Create | src/main/java/org/openwms/core/preferences/impl/PreferencesServiceImpl.java:149-172 | a persistent key or one row with the same owner, scope and key: ResourceExists; several such rows: IncorrectResultSize; a row with the same key and owner in another scope: DataIntegrityViolation; otherwise saves under a new key with a CREATED event |
| PreferencesService.CreateRefusedAcrossScopes | src/main/java/org/openwms/core/preferences/impl/jpa/PreferenceEO.java:50 | creating a ROLE preference beside a MODULE row with the same owner and key passes the service's own lookup but is refused by the database with DataIntegrityViolation |
| PreferencesService.CreateIsNotRepeatable | src/main/java/org/openwms/core/preferences/impl/PreferencesServiceImpl.java:149-172 | creating the same preference twice fails the second time with ResourceExists |
| PreferencesService.Update | src/main/java/org/openwms/core/preferences/impl/PreferencesServiceImpl.java:179-184 | a blank key: ConstraintViolation by `@NotBlank` (the class is `@Validated`, line 54); otherwise NotFound iff the key is not stored; DataIntegrityViolation iff another row has the new key and owner; otherwise the row under that key is replaced by the given preference (equal to it), the key set unchanged, with an UPDATED event |
| PreferencesService.Delete | src/main/java/org/openwms/core/preferences/impl/PreferencesServiceImpl.java:191-195 | a blank key: ConstraintViolation by `@NotBlank` (the class is `@Validated`, line 54); otherwise NotFound iff the key is not stored; otherwise exactly that row goes and a DELETED event carries it |
| PreferencesService.UpdateAndDeleteReadBack | src/main/java/org/openwms/core/preferences/impl/PreferencesServiceImpl.java:179-195 | for a stored key: when blank, find, update and delete all fail with ConstraintViolation; otherwise an update succeeds iff it keeps the unique constraint, the updated row then reads back as returned, and a deleted one is NotFound |
| PreferencesService.ListingTransfer | src/main/java/org/openwms/core/preferences/impl/jpa/JpaPreferencePersistenceAdapter.java:45-47 | a listing of the store is scoped, identity-distinct and has the same identities exactly when the store has |
| PreferencesService.Snapshot | src/main/java/org/openwms/core/preferences/impl/PreferencesServiceImpl.java:204-205 | the identity map of the current rows succeeds iff every row is scoped and identities are distinct; a null scope throws NullPointer, a repeated identity IllegalState, the first in list order winning |
| PreferencesService.SeedFrom | src/main/java/org/openwms/core/preferences/impl/PreferencesServiceImpl.java:206-210 | a failure is NotFound (an unknown type) or DataIntegrityViolation (a refused insert), and when every missing record maps it is the latter; a success means every missing record mapped, keeps the service valid and adds rows only under fresh keys |
| PreferencesService.SeedFromSucceedsIff | src/main/java/org/openwms/core/preferences/impl/PreferencesServiceImpl.java:206-210 | the seeding loop succeeds iff every record absent from the snapshot maps and no insert breaks the (key, owner) constraint against stored or earlier inserted rows; without such a clash the only failure is NotFound |
| PreferencesService.ReloadInitialPreferences | src/main/java/org/openwms/core/preferences/impl/PreferencesServiceImpl.java:202-211 | a successful merge leaves a valid service (well formed, unique constraint kept) that extends the old store by rows under the fresh keys only |
| PreferencesService.SeedFromInserts | src/main/java/org/openwms/core/preferences/impl/PreferencesServiceImpl.java:206-210 | each file record not yet in the database is stored as its mapping under its fresh key; the others are not stored |
| PreferencesService.SeedFromEvents | src/main/java/org/openwms/core/preferences/impl/PreferencesServiceImpl.java:206-210 | the merge appends exactly one CREATED event per inserted row, carrying it |
| PreferencesService.MergeIdempotent | src/main/java/org/openwms/core/preferences/impl/PreferencesServiceImpl.java:202-211 | for distinct, key-preserving records a second merge changes nothing |
| PreferencesService.MergedStoreIdentities | src/main/java/org/openwms/core/preferences/impl/PreferencesServiceImpl.java:202-211 | after a merge of key-preserving records the store stays scoped and identity-distinct and holds every record's identity |
| PreferencesService.SeedFromNothingPending | src/main/java/org/openwms/core/preferences/impl/PreferencesServiceImpl.java:206-210 | when every record is already present, the merge is the identity |
| PreferencesService.MergeSucceedsIff | src/main/java/org/openwms/core/preferences/impl/PreferencesServiceImpl.java:202-211 | the merge succeeds iff the store is scoped, identity-distinct, every missing record maps and no insert breaks the unique constraint; each failure has its own error (NullPointer, IllegalState, NotFound, DataIntegrityViolation) |
| PreferencesService.SameKeyAndOwnerAbortsMerge | src/main/java/org/openwms/core/preferences/impl/jpa/PreferenceEO.java:50 | a module and a user record with the same owner and key have different identities, so both are missing from an empty database, and the merge fails with DataIntegrityViolation |
| PreferencesService.OwnerlessRecordIsReinserted | src/main/java/org/openwms/core/preferences/impl/PreferencesServiceImpl.java:202-211 | a module record without owner is inserted again by every merge, because its mapped identity differs from its file identity |
| ApiMapping.ResolveScope | src/main/java/org/openwms/core/preferences/PreferenceVOMapper.java:40-48 | the scope follows the value-object subtype; a plain value object is IllegalState |
| ApiMapping.TypeNameOf | src/main/java/org/openwms/core/preferences/PreferenceVOMapper.java:50-70 | the type is written as its enum name, which reads back as the type |
| ApiMapping.ToVOOne | src/main/java/org/openwms/core/preferences/PreferenceVOMapper.java:50-70 | fails with NullPointer iff the scope is null; the subtype resolves back to the scope and the fields are copied |
| ApiMapping.ToVO | src/main/java/org/openwms/core/preferences/PreferenceVOMapper.java:50-70 | null maps to null; otherwise as `ToVOOne` |
| ApiMapping.ToUserVO | src/main/java/org/openwms/core/preferences/PreferenceVOMapper.java:72-85 | always a user value object, whatever the preference's scope |
| ApiMapping.ToVOList | src/main/java/org/openwms/core/preferences/PreferenceVOMapper.java:87-92 | null gives the empty list; otherwise element-wise mapping, failing iff some element has no scope |
| ApiMapping.FromVO | src/main/java/org/openwms/core/preferences/PreferenceVOMapper.java:101-118 | unknown type: NotFound first; plain value object: IllegalState; otherwise fields copied, `fromFile` off, default/min/max unset, persistent key only if non-empty |
| ApiMapping.ToDomain | src/main/java/org/openwms/core/preferences/PreferenceVOMapper.java:101-104 | null maps to null; otherwise as `FromVO` |
| ApiMapping.DomainRoundTrip | src/main/java/org/openwms/core/preferences/PreferenceVOMapper.java:50-118 | domain → value object → domain gives an equal preference iff it was not from file and had no default, minimum or maximum |
| ApiMapping.UntypedDoesNotRoundTrip | src/main/java/org/openwms/core/preferences/PreferenceVOMapper.java:101-118 | a preference without a type maps out but fails with NotFound on the way back |
| ApiMapping.VoRoundTrip | src/main/java/org/openwms/core/preferences/PreferenceVOMapper.java:50-118 | a typed, non-plain value object without an empty persistent key survives value object → domain → value object |
| ApiMapping.ConvertTo | src/main/java/org/openwms/core/preferences/impl/PreferenceVOConverter.java:56-70 | the converter's inbound direction agrees with the mapper's |
| ApiMapping.ConvertFrom | src/main/java/org/openwms/core/preferences/impl/PreferenceVOConverter.java:76-124 | null scope: IllegalArgument; null type: NullPointer; otherwise the subtype of the scope with the fields copied, APPLICATION without owner |
| ApiMapping.ConvertFromAgreesWithToVO | src/main/java/org/openwms/core/preferences/impl/PreferenceVOConverter.java:76-124 | the converter's outbound direction agrees with the mapper's, except that it drops the owner of APPLICATION preferences |
| ApiMapping.EntityRoundTrip | src/main/java/org/openwms/core/preferences/impl/PreferenceVOConverter.java:56-124 | entity → value object → entity succeeds and keeps every field the value object carries |
| Modules.NewModule | src/main/java/org/openwms/core/module/Module.java:124-129 | succeeds iff the name has text (IllegalArgument otherwise); url unchecked, description "--", not loaded, order 0 |
| Modules.SetModuleName | src/main/java/org/openwms/core/module/Module.java:148-151 | succeeds iff the name has text and changes only the name |
| Modules.SetUrl | src/main/java/org/openwms/core/module/Module.java:170-173 | succeeds iff the url has text and changes only the url |
| Modules.UrlCheckedOnlyBySetter | src/main/java/org/openwms/core/module/Module.java:124-173 | the constructor accepts a null url that the setter refuses |
| Modules.Compare | src/main/java/org/openwms/core/module/Module.java:93-106 | the comparator never answers 0 |
| Modules.ComparatorProperties | src/main/java/org/openwms/core/module/Module.java:93-106 | answers 1 iff the first order is at least the second; antisymmetric on distinct orders, but 1 both ways on equal ones |
| Modules.SortedByComparator | src/main/java/org/openwms/core/module/Module.java:93-106 | a list is in ascending order iff the comparator puts every later element after every earlier one |
| Modules.MaxOrder | src/main/java/org/openwms/core/module/impl/ModuleServiceImpl.java:82-86 | the largest startup order of a non-empty list, attained by some module |
| Modules.SortedLastIsMax | src/main/java/org/openwms/core/module/impl/ModuleServiceImpl.java:84-85 | after sorting, the last module has the largest order |
| Modules.Save | src/main/java/org/openwms/core/module/impl/ModuleServiceImpl.java:79-89 | null: IllegalArgument; DataIntegrityViolation iff the name or url is null or equals another module's (the columns of Module.java:48-54); otherwise a stored module is saved as is, and a new one gets (largest order + 1) with int wrap, or keeps its order when none is stored |
| Modules.NewModuleOrderedLast | src/main/java/org/openwms/core/module/impl/ModuleServiceImpl.java:79-89 | saving a new module succeeds iff its columns do not clash; it is then ordered after every stored one, unless the largest order is Integer.MAX_VALUE, when it wraps to Integer.MIN_VALUE |
| Modules.ColumnClashExactlyViolations | src/main/java/org/openwms/core/module/Module.java:48-54 | on a repository meeting the column constraints, writing a module clashes exactly when the result would break them (a null name or url, or a name or url shared with another module) |
| Modules.ColumnConstraintsRefuseSave | src/main/java/org/openwms/core/module/Module.java:48-54 | a new module built with a name but no url is accepted by the constructor and refused by the save; so is one reusing a stored module's name |
| Modules.ApplyOrders | src/main/java/org/openwms/core/module/impl/ModuleServiceImpl.java:54-61 | applying the new orders keeps the set of modules |
| Modules.ApplyOrdersEffect | src/main/java/org/openwms/core/module/impl/ModuleServiceImpl.java:54-61 | each module gets the order of its last occurrence in the list, and unlisted modules are untouched |
| Modules.SaveStartupOrder | src/main/java/org/openwms/core/module/impl/ModuleServiceImpl.java:54-61 | null or empty list: IllegalArgument; succeeds iff every listed module is stored, with exactly the new orders applied; otherwise NotFound (or IllegalArgument for a module without key) |

## Left out

- XML parsing (JAXB) and resource lookup: the parsed document, or why it could not be read, is the `FileLoader.Resource` parameter.
- Spring wiring, transactions, AMQP event publishing, `@Measured` metrics and logging. Events are an append-only list. A rollback after a failing merge step is not modelled: the merge result is a `Result`, and the partial state is not observable.
- The REST controllers, the MongoDB adapter and the legacy configuration tree: these sit outside the preferences core.
- Bean Validation of entities: the `PreferenceEO` constraints are the predicate `PrefStore.EntityValid`; they are not checked on save. The service's `@NotBlank` arguments are checked (ConstraintViolation).
- The service's `@NotNull` scope and preference arguments: neither is optional in the model, so a null one, which Bean Validation would refuse, cannot be passed.
- FileRecords.FileEquals: the `this == obj` shortcut (`ModulePreference.java:139-141` and its siblings) is not modelled, since the model has values, not object identities. An owned record without type compared with itself is equal in Java but `Failure(NullPointer)` in the model (`FileRecords.UntypedSelfComparison`); for two distinct objects the results agree.
- `PreferenceEO.equals` (`PreferenceEO.java:222-228`: `ApplicationEntity.equals` and then every column, `fromFile` included) is not modelled. The entity is the domain record, `ApplicationEntity` is not part of this model, and `ApiMapping.EntityRoundTrip` states its field equality with `Domain.PrefEquals`, without the superclass part.
- `Preference.hashCode` and `toString`, and `Module.toString`: they are not used for any decision in the core.
- The mapper's `default` branch: `GenericPreference` is abstract, so every record is one of the four kinds.
- Null elements inside lists, and the `result == null` fallbacks of the port: the port always returns a value here.
- `PreferenceVO.val` is `Serializable`; it is modelled as a string.
- `toUserVOList` and the MongoDB mapper `toMO`.
- `PreferencesServiceImpl.findAll` and `XMLPreferenceDaoImpl.findAll` beyond their lists: `findAll` is the store itself (`PrefStore.IsListing`).
- UUID generation for persistent keys and the auditing clock: they are the parameters `newKey`, `newKeys`, `newPk` and `now`.
- Concurrency: the model is sequential.
- PrefStore.Save: the (key, owner) unique constraint is checked at the save that breaks it; Hibernate reports it at flush, at the latest on commit. So when a merge meets both an unknown type and a clash, Java may report NotFound even if the clash comes first in file order, depending on when Hibernate flushes; the model reports the first failure in file order. `MergeSucceedsIff` states nothing about which of the two errors a merge with both reports.
- PrefStore.Save: two rows with one owner and a null key count as a clash. SQL lets NULLs through a unique constraint, but `@NotBlank` on the entity's key refuses such rows before the insert, and entity validation is not modelled (see above).
- Modules.Save: the sort of `findAll` is abstracted to its last element, the maximum order (`Modules.SortedLastIsMax`). The comparator never answers 0, so it breaks the `Comparator` contract on equal orders; the sort's reaction to that is not modelled.
- Modules.Save: a null or duplicate name or url is reported as DataIntegrityViolation at the save; Hibernate reports it at flush. The url's uniqueness is the column's, so two modules with different names and one url are refused.
- Modules.SaveStartupOrder: `findById(null)` throws in Spring Data; it is modelled as IllegalArgument.
- Modules.Save: a new module's stored order must already be a 32-bit int (`IsInt32`), as a Java field always is.
- PreferencesService.MergeIdempotent: proved only for distinct, key-preserving records; `OwnerlessRecordIsReinserted` shows the merge is not idempotent otherwise.
- ApiMapping.DomainRoundTrip: the value object has no default, minimum or maximum value, so these are lost on the way.

## Findings

| source | as written | input that shows it | evidently intended | confidence | as-written member | corrected member |
|---|---|---|---|---|---|---|
| src/main/java/org/openwms/core/preferences/impl/file/RolePreference.java:59-66 | the constructor checks the field `owner`, which is still null, before assigning the parameter `rolename` to it | `new RolePreference("ADMIN", "theme")` throws IllegalArgumentException | check the `rolename` parameter, as the javadoc says | not executed | FileRecords.NewRolePreferenceAsWritten (with FileRecords.RoleConstructorRejectsValidInput) | FileRecords.NewRolePreference |
| src/main/java/org/openwms/core/preferences/impl/file/ModulePreference.java:120-127 | `hashCode` starts from `super.hashCode()`, which hashes value, type, description, minimum and maximum; `equals` compares only key, owner and type | two module records with the same owner, key and type "INT", and values "1" and "2": `equals` is true, the hash codes differ | hash only what `equals` compares (RolePreference.java:126-133 and UserPreference.java:119-126 have the same shape) | not executed | FileRecords.OwnedHashAsWritten (with FileRecords.OwnedHashBreaksEquals) | FileRecords.OwnedHash (with FileRecords.OwnedHashConsistent) |
