# SuperModel entities in Dafny

SuperModel is a small data-modelling tool. A user defines entities, each with a name, an
ordered list of typed attributes (at most one of them the primary key) and an ordered list
of named relationships to other registered entities. A registry (`EntityManager`) holds the
entities by name. Each entity also has a one-line text form, for example
`Pokemon$id:INTEGER_PRIMARY_KEY#$owner:Trainer#`. This project models the `entity` package
and the older map-based `Entity` class, and proves their rules.

It has two layers.

- **Values.** These are pure functions and lemmas.
  - `EntitySpec` holds the entity as a value, with one function per mutating operation.
    Each function returns the new entity or the exception message.
  - `Codec` holds the text form, with `Encode`/`Decode`. `CodecProofs` proves the round trip
    and the test scenarios.
  - `Names` validates names. `AttributeTypes` is the nine-value attribute type.
    `SqliteTypes` is the four-value enum exactly as `AttributeType.java` declares it.
  - `JavaStrings` gives Java's `split` (trailing empty strings dropped), `trim`, `replace`
    and `indexOf`.
- **Objects.** These are classes whose methods change fields in place. Each method is
  proved against the value layer.
  - `Attributes.Attribute`, plus `Entities.Relationship`, `Entities.Entity` and
    `Entities.EntityManager`.
  - The registry is an explicit object passed to the operations that consult it. The Java
    code keeps it in static state.
  - `Legacy` holds the old map-based entity of `supermodel/Entity.java`.

The main results:

- Every entity reachable by any sequence of edits has at most one primary key
  (`EntitySpec.EditedEntityHasOneKey`).
- Decoding inverts encoding for every well-formed entity (`CodecProofs.RoundTrip`).
- Removing an entity from the registry also removes every relationship that targets it
  (`Entities.EntityManager.RemoveEntity`).
- The registry never holds two entities with the same name (`Valid`, kept by every method).

## Model

| member | source | states |
|---|---|---|
| Names.ValidateName | src/com/grahammueller/supermodel/Entity.java:17-25 | A name passes exactly when it is a non-empty run of `[A-Za-z0-9_]` not starting with a digit. The checks run in order: empty ("<role> name not specified"), then characters, then a leading digit. Each message carries the role. |
| AttributeTypes.ValueOf | src/com/grahammueller/supermodel/entity/Entity.java:359 | `valueOf` finds the constant whose name is exactly the text, or none when no constant has that name. |
| AttributeTypes.ValueOfTypeName | src/com/grahammueller/supermodel/entity/Entity.java:301 | Reading back a type's printed name gives that type. |
| AttributeTypes.TypeName | src/com/grahammueller/supermodel/entity/Entity.java:301 | Every constant name is an identifier without `_`, so it cannot be confused with the `_PRIMARY_KEY` suffix. |
| AttributeTypes.ToJavaString | src/test/com/grahammueller/supermodel/AttributeTypeDriver.java:9-19 | The Java type is empty exactly for UNDEFINED, "String" exactly for BLOB and STRING, and each of "boolean", "Date", "double", "float", "int" and "long" exactly for its own type. |
| AttributeTypes.ToSQLiteString | src/test/com/grahammueller/supermodel/AttributeTypeDriver.java:21-31 | The SQLite type is NUMERIC exactly for the numeric and boolean types, TEXT exactly for DATE and STRING, BLOB exactly for BLOB, and empty exactly for UNDEFINED. |
| AttributeTypes.JavaAndSQLiteAgree | src/test/com/grahammueller/supermodel/AttributeTypeDriver.java:9-31 | A primitive Java type goes with NUMERIC and nothing else does. A Java String is stored as TEXT or BLOB. Both mappings are empty together. |
| SqliteTypes.ValueOf | src/com/grahammueller/supermodel/Entity.java:89 | `Type.valueOf` of the four-value enum finds exactly the constant with that name. |
| SqliteTypes.ValueOfTypeName | src/com/grahammueller/supermodel/Entity.java:62 | Reading back a printed constant gives that constant. |
| SqliteTypes.ToStringValues | src/com/grahammueller/supermodel/entity/AttributeType.java:16-18 | `toString` spells INTEGER_PRIMARY_KEY as "INTEGER PRIMARY KEY" and every other value as its own name. |
| SqliteTypes.KeyToString | src/com/grahammueller/supermodel/entity/AttributeType.java:16-18 | Replacing underscores in INTEGER_PRIMARY_KEY gives "INTEGER PRIMARY KEY". |
| SqliteTypes.ToString | src/com/grahammueller/supermodel/entity/AttributeType.java:16-18 | The printed form has the length of the constant's name and no underscore. |
| SqliteTypes.ToJavaString | src/com/grahammueller/supermodel/entity/AttributeType.java:25-33 | "long" exactly for INTEGER_PRIMARY_KEY, "double" exactly for NUMERIC, "String" exactly for TEXT and BLOB. |
| SqliteTypes.ToSQLString | src/com/grahammueller/supermodel/entity/AttributeType.java:39-47 | "INTEGER PRIMARY KEY AUTOINCREMENT" exactly for INTEGER_PRIMARY_KEY. |
| SqliteTypes.JavaAndSQLAgree | src/com/grahammueller/supermodel/entity/AttributeType.java:25-47 | "String" exactly for TEXT and BLOB, "long" exactly for the autoincrement key column, "double" exactly for NUMERIC. Every non-key value's SQL form is its name. |
| JavaStrings.IndexOf | src/com/grahammueller/supermodel/Entity.java:78 | The result is none exactly when the element is absent. Otherwise it is the position of the first occurrence. |
| JavaStrings.LastIndexOf | src/com/grahammueller/supermodel/entity/Entity.java:71-91 | The result is none exactly when the element is absent. Otherwise it is the position of the last occurrence, which is the element a search loop without an early exit ends on. |
| JavaStrings.Split | src/com/grahammueller/supermodel/entity/Entity.java:328 | Text without the delimiter splits into itself, and no piece contains the delimiter. |
| JavaStrings.SplitChunks | src/com/grahammueller/supermodel/entity/Entity.java:336-337 | Splitting a list of non-empty, delimiter-free chunks, each followed by the delimiter, gives back exactly those chunks. |
| JavaStrings.SplitFields | src/com/grahammueller/supermodel/entity/Entity.java:328 | Terminated fields followed by a non-empty last field split into those fields and the last one. |
| JavaStrings.ReplaceChar | src/com/grahammueller/supermodel/entity/AttributeType.java:17 | `replace(char, char)` keeps the length and swaps exactly the occurrences of one character. |
| JavaStrings.TrimVisible | src/com/grahammueller/supermodel/entity/Entity.java:341 | `trim` leaves a string without control characters or spaces unchanged. |
| JavaStrings.TrimBlank | src/com/grahammueller/supermodel/entity/Entity.java:341-346 | `trim` empties a string of spaces, so a blank chunk is skipped. |
| EntitySpec.PrimaryKey | src/com/grahammueller/supermodel/entity/Entity.java:123-131 | `getPrimaryKey` is null exactly when no attribute is flagged. Otherwise it returns the first flagged attribute of the entity. |
| EntitySpec.PrimaryKeyUnique | src/com/grahammueller/supermodel/entity/Entity.java:123-131 | Under the single-key rule, the flagged attribute is the one `getPrimaryKey` returns. |
| EntitySpec.CreateEntity | src/com/grahammueller/supermodel/entity/Entity.java:23-32 | Construction succeeds exactly for a valid name not yet registered. An invalid name fails with the "Entity" message, and a taken name with "Entity already registered". The new entity has no attributes and no relationships. |
| EntitySpec.AddAttribute | src/com/grahammueller/supermodel/entity/Entity.java:60-62 | The name is validated with role "Attribute". On success exactly one non-key attribute is appended and nothing else changes. |
| EntitySpec.UpdateAttributeName | src/com/grahammueller/supermodel/entity/Entity.java:71-91 | "Attribute name in use" wins over everything, even when the old name is missing or equal to the new one. Next comes "Requested Attribute not found", then the "Attibute" validation. Success is exactly all three passing. On success only the matched attribute's name changes. |
| EntitySpec.UpdateAttributeType | src/com/grahammueller/supermodel/entity/Entity.java:100-116 | It fails exactly for an unknown name, with "Requested Attribute not found". Otherwise only that attribute changes: it takes the new type and stays key only if it was key and the type is INTEGER or LONG. |
| EntitySpec.SetPrimaryKey | src/com/grahammueller/supermodel/entity/Entity.java:140-153 | Setting a key when one exists fails with "Already has a primary key", even for the key itself. An unknown name then fails with "Requested Attribute not found". Otherwise exactly the named attribute's flag is set. |
| EntitySpec.RemoveAttribute | src/com/grahammueller/supermodel/entity/Entity.java:161-178 | It fails exactly for an unknown name, with "Attribute not found". Otherwise exactly that attribute is removed. Relationships are emptied when it was the key and untouched otherwise. |
| EntitySpec.AddRelationship | src/com/grahammueller/supermodel/entity/Entity.java:196-208 | The checks run in order: a key must exist, then the name must be valid, then the target must be non-null and registered. Success is exactly all three passing, and it appends exactly one relationship at the end. |
| EntitySpec.UpdateRelationshipName | src/com/grahammueller/supermodel/entity/Entity.java:217-238 | "Relationship name in use" comes before "Relationship not found". The new name is not validated. On success only the matched relationship's name changes. |
| EntitySpec.UpdateRelationshipEntity | src/com/grahammueller/supermodel/entity/Entity.java:247-262 | An unknown name fails with "Relationship not found", and a null or unregistered target with "Invalid Entity provided". Otherwise only that relationship's target is replaced. |
| EntitySpec.RemoveRelationship | src/com/grahammueller/supermodel/entity/Entity.java:270-281 | It fails exactly for an unknown name, with "Relationship not found". Otherwise exactly the first relationship of that name is removed. |
| EntitySpec.DropTargeting | src/test/com/grahammueller/supermodel/EntityManagerDriver.java:62-71 | The kept relationships are exactly those not targeting the removed entity. |
| EntitySpec.ApplyKeepsOneKey | src/com/grahammueller/supermodel/entity/Entity.java:60-281 | Every mutator, successful or not, preserves "at most one attribute is the primary key". |
| EntitySpec.ApplyAllKeepsOneKey | src/com/grahammueller/supermodel/entity/Entity.java:140-153 | Any sequence of edits preserves the single-key rule. |
| EntitySpec.EditedEntityHasOneKey | src/com/grahammueller/supermodel/entity/Entity.java:23-32 | A newly constructed entity, after any edits, has at most one primary key. |
| EntitySpec.RenameAttributeBack | src/com/grahammueller/supermodel/entity/Entity.java:71-91 | With distinct attribute names, renaming a to b and then b back to a restores the entity. |
| EntitySpec.AddThenRemoveRelationship | src/com/grahammueller/supermodel/entity/Entity.java:196-281 | Adding a relationship under a fresh name and then removing it restores the entity. |
| EntitySpec.RemoveKeyCascade | src/com/grahammueller/supermodel/entity/Entity.java:161-178 | Removing the primary-key attribute succeeds, empties the relationships and leaves the entity keyless. |
| EntitySpec.SecondKeyRefused | src/com/grahammueller/supermodel/entity/Entity.java:140-153 | Once `id` is the key, making a second attribute key fails with "Already has a primary key", and `id` stays the key. |
| EntitySpec.RetypeKeepsRelationships | src/com/grahammueller/supermodel/entity/Entity.java:100-116 | Retyping the key attribute to STRING unflags it but keeps the relationships, so a keyless entity can have relationships. |
| Codec.PadTrailing | src/com/grahammueller/supermodel/entity/Entity.java:327 | `replaceFirst("\\$$", "\\$ ")` adds one space exactly when the text ends in `$` (the line-terminator case is under Left out), so the result never ends in `$`. |
| Codec.PadDelimiters | src/com/grahammueller/supermodel/entity/Entity.java:327 | After padding the text never ends in `$`, so `split` keeps the last section. |
| Codec.Encode | src/com/grahammueller/supermodel/entity/Entity.java:295-315 | The text starts with the entity's name followed by `$`. `CodecProofs.RoundTrip` shows that decoding it gives the entity back. |
| Codec.AddKeyed | src/com/grahammueller/supermodel/entity/Entity.java:359-360 | Adding a decoded attribute and setting its flag keeps the name and the relationships. A name that is not an identifier changes nothing and fails. A success means the name was an identifier and exactly one attribute was added. When the key was asked for, the entity then has a key. |
| CodecProofs.AddKeyedSucceeds | src/com/grahammueller/supermodel/entity/Entity.java:359-360 | That step succeeds exactly for an identifier, unless it asks for the key while the entity already has one. |
| Codec.DecodeAttributeParts | src/com/grahammueller/supermodel/entity/Entity.java:354-360 | Keeps the name and the relationships. A success means the name was an identifier and exactly one attribute was added. A successful type with the `_PRIMARY_KEY` marker leaves the entity with a key. |
| Codec.DecodeAttribute | src/com/grahammueller/supermodel/entity/Entity.java:339-361 | Keeps the name and the relationships. A blank chunk is skipped and changes nothing. A non-blank chunk that succeeds adds exactly one attribute. |
| Codec.DecodeAttributes | src/com/grahammueller/supermodel/entity/Entity.java:339-361 | Keeps the name and the relationships. No attribute is removed, and each chunk adds at most one. |
| Codec.DecodeRelationships | src/com/grahammueller/supermodel/entity/Entity.java:363-387 | Keeps the name and the attributes. |
| Codec.DecodePieces | src/com/grahammueller/supermodel/entity/Entity.java:332-387 | Keeps the name given at construction. |
| Codec.Decode | src/com/grahammueller/supermodel/entity/Entity.java:324-390 | A built entity has an identifier for a name, and that name was not registered before. |
| Codec.DecodeRelationship | src/com/grahammueller/supermodel/entity/Entity.java:363-387 | Decoding a relationship chunk never changes the name or the attributes. |
| CodecProofs.RoundTrip | src/com/grahammueller/supermodel/entity/Entity.java:295-390 | For an entity with identifier names, at most one key, no other attribute with the key's name, a key whenever it has relationships, and registered targets, `fromString(toString(e))` against a registry without its name rebuilds exactly e with no failure. |
| CodecProofs.SplitEncoded | src/com/grahammueller/supermodel/entity/Entity.java:327-328 | The padded text of an entity splits at `$` into exactly three pieces, with empty sections padded to a blank. |
| CodecProofs.AttributeChunkDecodes | src/com/grahammueller/supermodel/entity/Entity.java:339-360 | An encoded attribute chunk decodes to adding that attribute's name, type and key flag. |
| CodecProofs.AppendAttribute | src/com/grahammueller/supermodel/entity/Entity.java:359-360 | Adding and then flagging appends the attribute unchanged when no flagged attribute shares its name and, for a key, its name is new and the entity has no key yet. |
| CodecProofs.RepeatedKeyNameLost | src/com/grahammueller/supermodel/entity/Entity.java:354-360 | An entity whose key is followed by a non-key attribute of the same name does not round-trip. Its text decodes to two non-key attributes, because the second chunk clears the flag of the first attribute of that name. |
| CodecProofs.AttributesRoundTrip | src/com/grahammueller/supermodel/entity/Entity.java:339-361 | The attribute section decodes back to exactly the encoded attributes, names, types and key flags in order. |
| CodecProofs.RelationshipsRoundTrip | src/com/grahammueller/supermodel/entity/Entity.java:363-387 | The relationship section decodes back to exactly the encoded relationships when a key exists and the targets are registered. |
| CodecProofs.DecodeSections | src/com/grahammueller/supermodel/entity/Entity.java:330-387 | Once the name is accepted, decoding builds the entity and decodes the attributes. The relationships are decoded only if no attribute failed. |
| CodecProofs.EncodeSingleKey | src/com/grahammueller/supermodel/entity/Entity.java:295-315 | An entity with one key attribute encodes as `name$attr:TYPE_PRIMARY_KEY#$`. |
| CodecProofs.PokemonEncoding | src/com/grahammueller/supermodel/entity/Entity.java:295-315 | Pokemon with key `id` INTEGER encodes as `Pokemon$id:INTEGER_PRIMARY_KEY#$` and decodes back to itself. |
| CodecProofs.PokemonEmptySections | src/test/com/grahammueller/supermodel/EntityDriver.java:26-31 | `Pokemon$$` decodes to Pokemon with no attributes and no relationships. |
| CodecProofs.PokemonMissingSection | src/test/com/grahammueller/supermodel/EntityDriver.java:33-36 | `Pokemon$` builds (and so registers) Pokemon, then fails with "Entity malformed". |
| CodecProofs.MissingSection | src/com/grahammueller/supermodel/entity/Entity.java:330-334 | For any valid unregistered name, `name$` is built and then rejected as "Entity malformed". |
| CodecProofs.KeylessRelationship | src/com/grahammueller/supermodel/entity/Entity.java:379-386 | For an entity without a key and with identifier attribute names, the attributes decode and then the relationship fails. The failure is "Must have a primary key…" when the target is registered and "Other Entity, "X," doesn't exist" when it is not. The entity keeps its attributes and has no relationship. |
| CodecProofs.OwnedPokemonEncoding | src/test/com/grahammueller/supermodel/EntityManagerDriver.java:42 | The test's Pokemon, with four non-key attributes and an owner relationship to Trainer, encodes as exactly the text the test decodes. |
| CodecProofs.PokemonOwnerScenario | src/test/com/grahammueller/supermodel/EntityManagerDriver.java:62-71 | `Pokemon$id:INTEGER#name:STRING#type:FLOAT#image:BLOB#$owner:Trainer#` builds Pokemon with its four attributes, none of them the key, then fails on the relationship. The failure is "doesn't exist" while Trainer is unregistered and the key-required message once it is registered. Either way Pokemon has no relationship. |
| Attributes.Attribute.Create | src/com/grahammueller/supermodel/entity/Attribute.java:14-19 | Construction validates the name with role "Attribute" before any field is set. On success it gives a fresh non-key attribute with that name and type. |
| Attributes.Attribute.constructor | src/com/grahammueller/supermodel/entity/Attribute.java:14-19 | A validated name and a type are stored, and the key flag starts false. |
| Attributes.Attribute.SetName | src/com/grahammueller/supermodel/entity/Attribute.java:34-38 | The name is validated with the misspelt role "Attibute". The new name is stored exactly on success, and a failed rename changes nothing. |
| Attributes.Attribute.SetType | src/com/grahammueller/supermodel/entity/Attribute.java:52-54 | Always succeeds and changes only the type. |
| Attributes.Attribute.SetPrimaryKey | src/com/grahammueller/supermodel/entity/Entity.java:147 | Changes only the primary-key flag. |
| Entities.Relationship.constructor | src/com/grahammueller/supermodel/entity/Relationship.java:15-18 | Name and target are stored verbatim, with no validation. |
| Entities.Relationship.SetName | src/com/grahammueller/supermodel/entity/Relationship.java:32-34 | Replaces the name, unvalidated, and nothing else. |
| Entities.Relationship.SetEntity | src/com/grahammueller/supermodel/entity/Relationship.java:48-50 | Replaces only the target. |
| Entities.Entity.EqualsIsEquivalence | src/com/grahammueller/supermodel/entity/Entity.java:398-400 | `equals` compares names: it is reflexive, symmetric and transitive, holds exactly when the names are equal, and never holds for null. |
| Entities.Entity.constructor | src/com/grahammueller/supermodel/entity/Entity.java:23-32 | A new entity has the given name and empty lists. |
| Entities.Entity.Create | src/com/grahammueller/supermodel/entity/Entity.java:23-32 | The outcome is exactly `CreateEntity` against the registered names. A failure leaves the registry as it was. A success appends the fresh, empty entity at the end of the registry. |
| Entities.Entity.SetName | src/com/grahammueller/supermodel/entity/Entity.java:49-51 | Renaming validates with role "Entity" and refuses a registered name with "Entity already registered". The name changes exactly on success, which logs a name update with the old and new names. |
| Entities.Entity.AddAttribute | src/com/grahammueller/supermodel/entity/Entity.java:60-62 | The new state and outcome are exactly `EntitySpec.AddAttribute` of the old state. |
| Entities.Entity.UpdateAttributeName | src/com/grahammueller/supermodel/entity/Entity.java:71-91 | The new state and outcome are exactly `EntitySpec.UpdateAttributeName` of the old state. |
| Entities.Entity.UpdateAttributeType | src/com/grahammueller/supermodel/entity/Entity.java:100-116 | The new state and outcome are exactly `EntitySpec.UpdateAttributeType` of the old state. |
| Entities.Entity.GetPrimaryKey | src/com/grahammueller/supermodel/entity/Entity.java:123-131 | The search loop returns null exactly when no attribute is flagged. Otherwise it returns the entity's attribute that `PrimaryKey` names. |
| Entities.Entity.SetPrimaryKey | src/com/grahammueller/supermodel/entity/Entity.java:140-153 | The new state and outcome are exactly `EntitySpec.SetPrimaryKey` of the old state. |
| Entities.Entity.RemoveAttribute | src/com/grahammueller/supermodel/entity/Entity.java:161-178 | The new state and outcome are exactly `EntitySpec.RemoveAttribute`. Removing the key also logs a relationships-cleared update. |
| Entities.Entity.ClearRelationships | src/com/grahammueller/supermodel/entity/Entity.java:164-168 | Empties the relationships, changes nothing else, and logs the clearing. |
| Entities.Entity.AddRelationship | src/com/grahammueller/supermodel/entity/Entity.java:196-208 | The new state and outcome are exactly `EntitySpec.AddRelationship` with the target's name and the registry's names. |
| Entities.Entity.UpdateRelationshipName | src/com/grahammueller/supermodel/entity/Entity.java:217-238 | The new state and outcome are exactly `EntitySpec.UpdateRelationshipName`. |
| Entities.Entity.UpdateRelationshipEntity | src/com/grahammueller/supermodel/entity/Entity.java:247-262 | The new state and outcome are exactly `EntitySpec.UpdateRelationshipEntity`. |
| Entities.Entity.RemoveRelationship | src/com/grahammueller/supermodel/entity/Entity.java:270-281 | The new state and outcome are exactly `EntitySpec.RemoveRelationship`. |
| Entities.Entity.ToString | src/com/grahammueller/supermodel/entity/Entity.java:295-315 | The StringBuilder loops produce exactly `Codec.Encode` of the entity, which `CodecProofs.RoundTrip` shows decodes back. |
| Entities.Entity.FromString | src/com/grahammueller/supermodel/entity/Entity.java:324-390 | A name rejected by construction leaves the registry unchanged. Otherwise exactly one fresh entity is appended to the registry, holding what `Codec.Decode` built even when a later chunk failed. The result is that entity or the failure. |
| Entities.Entity.DecodePieces | src/com/grahammueller/supermodel/entity/Entity.java:332-387 | Checking the piece count and running both section loops leaves the entity and failure that `Codec.DecodePieces` gives. |
| Entities.Entity.AddKeyed | src/com/grahammueller/supermodel/entity/Entity.java:359-360 | Adding a decoded attribute and then setting its key flag gives exactly the state and failure of `Codec.AddKeyed`. |
| Entities.Entity.DropRelationshipsTo | src/test/com/grahammueller/supermodel/EntityManagerDriver.java:62-71 | The relationships become exactly those not targeting the given name, in order. |
| Entities.Kept | src/test/com/grahammueller/supermodel/EntityManagerDriver.java:62-71 | Every kept relationship is one of the originals and does not target the name. |
| Entities.KeptValues | src/test/com/grahammueller/supermodel/EntityManagerDriver.java:62-71 | Seen as values, dropping relationships from objects is `EntitySpec.DropTargeting`. |
| Entities.RelValues | src/com/grahammueller/supermodel/entity/Relationship.java:24-42 | A relationship's value is its name and its target's name, read through the getters. |
| Entities.AttrValues | src/com/grahammueller/supermodel/entity/Attribute.java:25-46 | An attribute's value is its name, type and key flag, read through the getters. |
| Entities.EntityManager.constructor | src/com/grahammueller/supermodel/entity/EntityManager.java:6 | The registry starts empty, with an empty event log. |
| Entities.EntityManager.ContainsMeansEquals | src/com/grahammueller/supermodel/entity/EntityManager.java:27-29 | `containsEntity` holds exactly when some registered entity `equals` the argument, that is, has its name. |
| Entities.EntityManager.GetEntityByName | src/com/grahammueller/supermodel/entity/Entity.java:380-384 | The result is null exactly when no registered entity has the name. Otherwise it is the registered entity with that name. |
| Entities.EntityManager.RegisterEntity | src/com/grahammueller/supermodel/entity/EntityManager.java:14-20 | Returns true exactly when no registered entity has the name, and then appends the entity at the end. Otherwise the list is unchanged. Names stay distinct. |
| Entities.EntityManager.ClearRegistry | src/com/grahammueller/supermodel/entity/EntityManager.java:34-36 | The registry is empty afterwards. |
| Entities.EntityManager.UpdateEntityName | src/com/grahammueller/supermodel/entity/Entity.java:49-51 | An invalid name fails with the "Entity" validation message and a registered name with "Entity already registered". Otherwise the entity takes the name and a name update is logged. Names stay distinct. |
| Entities.EntityManager.RemoveEntity | src/test/com/grahammueller/supermodel/EntityManagerDriver.java:53-71 | Returns true exactly when the entity is registered. Otherwise nothing changes. On removal the entity is taken out of the list (others keep their order), a removal is logged, and every other entity keeps exactly its relationships not targeting it. No remaining relationship targets it. |
| Entities.EntityManager.RemoveAt | src/test/com/grahammueller/supermodel/EntityManagerDriver.java:62-71 | Removing the entity at a position drops it from the list and strips the relationships pointing at it from all the others. |
| Entities.EntityManager.StripTargeting | src/test/com/grahammueller/supermodel/EntityManagerDriver.java:62-71 | Every entity except the skipped one keeps exactly its relationships not targeting the name, and none of them targets it afterwards. |
| Entities.EntityManager.EntityClearedRelationships | src/com/grahammueller/supermodel/entity/Entity.java:167 | Appends one relationships-cleared update for the entity to the log. |
| Legacy.CheckName | src/com/grahammueller/supermodel/Entity.java:17-25 | The old constructor's checks accept exactly the identifiers. |
| Legacy.CheckNameAgrees | src/com/grahammueller/supermodel/Entity.java:18-19 | The old and new validations accept the same names, and both say "Entity name not specified" for the empty name. |
| Legacy.CheckNameDigit | src/com/grahammueller/supermodel/Entity.java:24-25 | A word-character name starting with a digit fails with "Entity name can't start with a number" in both validations. |
| Legacy.CheckNameCharacters | src/com/grahammueller/supermodel/Entity.java:21-22 | A name with a non-word character fails with "Invalid characters in name". The new validation says "Invalid characters in Entity name". |
| Legacy.Encode | src/com/grahammueller/supermodel/Entity.java:58-66 | The text starts with the name followed by `$`, and is exactly `name$` when no key is visited. `Legacy.RoundTrip` shows that decoding it gives the entity back. |
| Legacy.Decode | src/com/grahammueller/supermodel/Entity.java:75-93 | A text without `$` fails with "Name not properly specified". A success has a name the constructor accepts, and the text starts with that name followed by `$`. |
| Legacy.DecodeAttributes | src/com/grahammueller/supermodel/Entity.java:85-90 | On success every chunk held a `:`, and every key present before is still present. |
| Legacy.DecodeAttribute | src/com/grahammueller/supermodel/Entity.java:86-89 | A decoded chunk adds exactly the name before its first `:` to the map's keys. |
| Legacy.DecodeChunk | src/com/grahammueller/supermodel/Entity.java:86-89 | The chunk `k:TYPE` of a name free of `:` puts k with that type. |
| Legacy.DecodeChunks | src/com/grahammueller/supermodel/Entity.java:85-90 | Decoding the chunks of some keys succeeds. Each listed key gets its type, and every other key keeps its earlier value. |
| Legacy.RoundTrip | src/com/grahammueller/supermodel/Entity.java:58-93 | For a valid name and a non-empty map whose keys avoid `:` and `#`, `fromString(toString(e))` gives the same name and map, whatever order the keys are visited in. |
| Legacy.EmptyDoesNotRoundTrip | src/com/grahammueller/supermodel/Entity.java:83-86 | An entity without attributes prints as `name$`, and reading that back fails: the one empty chunk has no `:`. |
| Legacy.RepeatedNameOverwrites | src/com/grahammueller/supermodel/Entity.java:38-44 | Two chunks with the same name leave only the second type. `put` overwrites and adds no second entry. |
| Legacy.EncodeSnoc | src/com/grahammueller/supermodel/Entity.java:61-63 | Visiting one more key appends exactly that key's `name:TYPE#`. |
| Legacy.Entity.constructor | src/com/grahammueller/supermodel/Entity.java:27-28 | An accepted name gives an entity with that name and an empty map. |
| Legacy.Entity.Create | src/com/grahammueller/supermodel/Entity.java:17-29 | Construction fails exactly as `CheckName` does. Otherwise it gives a fresh entity with an empty map. |
| Legacy.Entity.AddAttribute | src/com/grahammueller/supermodel/Entity.java:38-44 | Always returns true. The map gains or overwrites exactly that key. |
| Legacy.Entity.ToString | src/com/grahammueller/supermodel/Entity.java:58-66 | Returns the text together with the order the keys were visited in. That order lists each key exactly once, and the text is `Encode` in that order. |
| Legacy.Entity.FromString | src/com/grahammueller/supermodel/Entity.java:75-93 | A failure gives exactly `Decode`'s message (no `$`, a bad name, a chunk without `:`, an unknown type). Otherwise the result is a fresh entity equal to `Decode`'s. |
| Legacy.Entity.AddChunks | src/com/grahammueller/supermodel/Entity.java:85-90 | The loop over chunks stops at the first failure and otherwise leaves exactly the map `DecodeAttributes` computes. |

## Left out

- The Swing user interface, the code generators and the connection exception. They have no entity rules of their own.
- Listeners are not notified. The registry keeps an event log instead, shaped like the update map of `EntityManagerListener` (a name change with old and new value, a relationships clearing, a removal). Registration logs nothing, because the `registerEntity` shown notifies nobody.
- `EntityManager.java` shows only `registerEntity`, `containsEntity` and `clearRegistry`. Its other operations are stated from their call sites and from the test drivers: `validateName`, `updateEntityName`, `entityClearedRelationships`, `getEntityByName`, `removeEntity`, `containsEntity(String)` and `getAllEntities`. `getAllEntities` is the `entities` field.
- Entities.Entity.Create: the `registerEntity` shown returns false on a duplicate, but the entity constructor ignores that result. The model follows the test driver instead and fails with "Entity already registered" before registering anything.
- Entities.EntityManager.RemoveEntity: returns whether the entity was registered. The source gives no message for removing an unknown entity.
- The registry is an explicit object passed to the operations that need it. The Java registry is static state.
- The Java exception classes are not distinguished. Each thrown exception becomes its message. The out-of-range message of the old `fromString` is written as Java 8 words it.
- Names.ValidateName: Java's `.` in `matches(".*\\W.*")` does not match a line terminator. The model states the intent instead: every character is in `[A-Za-z0-9_]`.
- Codec.PadTrailing, Codec.PadDelimiters: Java's `$` without MULTILINE also matches before one final line terminator, so `"…$\n"` (likewise `\r\n`, `\r`, `\u0085`, `\u2028`, `\u2029`) becomes `"…$ \n"`, while the model pads only a final `$`. Decoding is not affected: the extra space lands in a last section that already holds the terminator, so the `$` pieces are the same in number, and `trim` either empties that chunk in both versions or leaves the same chunk in both.
- Legacy.CheckName: the same regular expressions accept a name holding two or more line terminators, such as `"a\n\nb"` or `"\n\n"`. `.*\W.*` must match the whole name and its `.*` cannot cross the other line terminator, and `\d.*` does not match either. The model rejects every name with a character outside `[A-Za-z0-9_]`.
- CodecProofs.RoundTrip: requires that no other attribute has the key's name. Decoding sets each attribute's flag on the first attribute of that name, so a later non-key chunk with the key's name clears the key (`CodecProofs.RepeatedKeyNameLost`).
- Null String arguments are not modelled. Strings are values here, so the exception Java raises when a name or text is null has no counterpart.
- `AttributeType.java` declares four values, while `Entity.java` and the type tests use nine. The entity model uses the nine-value type (`AttributeTypes`), where `toJavaString` and `toSQLiteString` follow the test driver. The four-value functions are modelled as written in `SqliteTypes`, which also serves as the old entity's `Type`.
- Legacy.Entity.ToString: `HashMap` iteration order is unspecified. The method returns the order it used, and the round trip is proved for every order.
- Where the code is more permissive than one might expect, the model follows the code:
  - `addAttribute` has no duplicate-name check.
  - `setPrimaryKey` does not check the type.
  - The registry test's Pokemon has no key, since its `id` is a plain INTEGER, so its `owner:Trainer` relationship fails with the key-required message even once Trainer is registered (`CodecProofs.PokemonOwnerScenario`).
- The stronger invariant "relationships imply a primary key" is not claimed. `updateAttributeType` and `setPrimaryKey(n, false)` break it (`EntitySpec.RetypeKeepsRelationships`).
