# The Module class-file attribute and FileKey, modelled in Dafny

This project models two pieces of the JDK.

1. **The `Module` attribute** of a class file (JVMS section 4.7.25), as declared by
   `jdk.internal.classfile.attribute.ModuleAttribute`. An attribute holds:
   - the module's name, its flags mask and an optional version;
   - five ordered tables: requires, exports, opens, uses and provides.

   The model covers:
   - the attribute and its accessors;
   - the flag views `moduleFlags()` and `has()`;
   - the eight-part `of(...)` factory;
   - the builder protocol and both `of(name, handler)` factories;
   - the big-endian `u2` layout of the attribute body, decoded through a constant pool.
2. **`sun.nio.ch.FileKey`**: the device and inode numbers of an open file, with its
   `equals` and `hashCode`.

## Modules

| file | module | what it holds |
|---|---|---|
| `wrappers.dfy` | `Wrappers` | `Option`, `Result` and `Outcome`. Java's null and thrown exceptions become these. |
| `ints.dfy` | `Ints` | `byte`, `u16` and `i32`, plus the truncation a `u2` write performs. |
| `access_flags.dfy` | `AccessFlags` | The flags of the four module locations (module, requires, exports, opens), with their bits. Also PUBLIC, FINAL and SUPER, class flags that let a flag be named at the wrong location (described in detail below). |
| `constant_pool.dfy` | `ConstantPool` | Tagged entries. The pool is a map from a `u16` index to an entry. |
| `module_attribute.dfy` | `ModuleAttribute` | The attribute value, `Of`, `ModuleFlags` and `Has`. |
| `raw_codec.dfy` | `RawCodec` | The body of the attribute as bytes, written over constant-pool indices. |
| `module_codec.dfy` | `ModuleCodec` | `Encode` and `Decode`. They go through a pool: an entry becomes its index, a mask its low 16 bits, and an absent version index 0. |
| `module_builder.dfy` | `ModuleBuilder` | The builder (described in detail below). |
| `file_key.dfy` | `FileKeys` | The `FileKey` class. It has two constant `bv64` fields, `Equals` over `object?` and `HashCode` as a `bv32` sum. |

**`AccessFlags` in detail.** `MaskToFlags` gives the named set of a mask at a location. `FlagsToBits` gives the mask of a list of flags. It fails on a flag that belongs to another location.

**`ModuleBuilder` in detail.**
- A handler is modelled as the sequence of calls (`BuilderOp`) it makes on the builder.
- `Step` and `Run` state what those calls do.
- The class `ModuleAttributeBuilder` has one field per part of the attribute. Each of its methods is proved to change exactly what `Step` describes.
- `OfDesc` and `OfEntry` construct a builder and feed the calls to it in a loop, which is proved to compute `Run`.

Exports and opens share one entry shape, `PackageInfo`: a package, a flags mask and target modules. They also share one encoding.

Two more points:
- Reading a class file's bytes from disk and the native `fstat` call are outside the model. The FileKey fields are constructor parameters.
- The pool a codec writes or reads with is a parameter.

## Model

| member | source | states |
|---|---|---|
| `AccessFlags.LocationFlags` | src/java.base/share/classes/jdk/internal/classfile/attribute/ModuleAttribute.java:71-73 | A flag is in a location's table exactly when that location is among the flag's locations. The module location has OPEN, SYNTHETIC and MANDATED, and requires adds TRANSITIVE and STATIC_PHASE. |
| `AccessFlags.MaskToFlagsMembers` | src/java.base/share/classes/jdk/internal/classfile/attribute/ModuleAttribute.java:71-73 | A flag is in the named set of a mask exactly when it belongs to the location and its bit is set in the mask's low 16 bits. |
| `AccessFlags.HasIffNamed` | src/java.base/share/classes/jdk/internal/classfile/attribute/ModuleAttribute.java:80-82 | `Has` tests the bits directly, yet it is true exactly when the flag is in the named set. |
| `AccessFlags.FlagsToBitsFails` | src/java.base/share/classes/jdk/internal/classfile/attribute/ModuleAttribute.java:188-190 | Converting flags to a mask fails exactly when some flag does not belong to the location. The error then names the first such flag. |
| `AccessFlags.FlagsRoundTrip` | src/java.base/share/classes/jdk/internal/classfile/attribute/ModuleAttribute.java:188-190 | Flags converted to a mask and back give exactly the set of flags given. |
| `AccessFlags.NamedFlagsRoundTrip` | src/java.base/share/classes/jdk/internal/classfile/attribute/ModuleAttribute.java:71-73 | A mask converted to its named flags and back keeps exactly the bits the location names. |
| `AccessFlags.BitOfBitsOf` | src/java.base/share/classes/jdk/internal/classfile/attribute/ModuleAttribute.java:188-190 | Within one location every flag has its own bit. The OR of the named flags has a flag's bit exactly when that flag is named. |
| `AccessFlags.BitsOfNamed` | src/java.base/share/classes/jdk/internal/classfile/attribute/ModuleAttribute.java:71-73 | The OR of a mask's named flags is the mask restricted to the bits of the location. |
| `ModuleAttribute.Of` | src/java.base/share/classes/jdk/internal/classfile/attribute/ModuleAttribute.java:127-135 | The attribute's accessors return exactly the name, mask and five lists supplied. A version is present exactly when one was supplied, and is that version. |
| `ModuleAttribute.ModuleFlagsMembers` | src/java.base/share/classes/jdk/internal/classfile/attribute/ModuleAttribute.java:71-73 | `moduleFlags()` holds exactly those of OPEN, SYNTHETIC and MANDATED whose bit is set in the module flags mask. |
| `ModuleAttribute.HasIffModuleFlag` | src/java.base/share/classes/jdk/internal/classfile/attribute/ModuleAttribute.java:80-82 | `has(f)` is true exactly when `f` is in `moduleFlags()`. |
| `ConstantPool.ResolveRef` | src/java.base/share/classes/jdk/internal/classfile/attribute/ModuleAttribute.java:61 | An index resolves exactly when it stands in the pool with an entry of the expected kind, and then gives that entry. A missing index is an invalid-index error. A present entry of another kind is a wrong-kind error naming the expected and the actual kind. |
| `ConstantPool.IndexOfSpec` | src/java.base/share/classes/jdk/internal/classfile/attribute/ModuleAttribute.java:61 | In a valid pool, the index of an entry is 0 exactly when the entry is absent. Otherwise it is the index where the entry stands. |
| `ConstantPool.IndexOfResolved` | src/java.base/share/classes/jdk/internal/classfile/attribute/ModuleAttribute.java:61 | An index that resolves is the index of the entry it resolves to. |
| `ConstantPool.ResolveIndexOf` | src/java.base/share/classes/jdk/internal/classfile/attribute/ModuleAttribute.java:61 | An entry of the expected kind in the pool resolves from its own index. |
| `ConstantPool.ResolveRefsOfIndexes` | src/java.base/share/classes/jdk/internal/classfile/attribute/ModuleAttribute.java:108 | A list of entries in the pool, written as indices and resolved, comes back in the same order. |
| `ConstantPool.IndexesOfResolved` | src/java.base/share/classes/jdk/internal/classfile/attribute/ModuleAttribute.java:108 | Indices that resolve are written back unchanged. |
| `ConstantPool.ResolveRefsFails` | src/java.base/share/classes/jdk/internal/classfile/attribute/ModuleAttribute.java:108 | A list fails to resolve exactly when one of its indices does. The error is that of the first such index. |
| `RawCodec.DecodeRawOfEncode` | src/java.base/share/classes/jdk/internal/classfile/attribute/ModuleAttribute.java:47-48 | Decoding the byte layout of a body decodes back to that body, provided every table fits its `u2` count. |
| `RawCodec.EncodeOfDecodeRaw` | src/java.base/share/classes/jdk/internal/classfile/attribute/ModuleAttribute.java:47-48 | Bytes that decode are exactly the encoding of what they decode to, and its tables fit. |
| `RawCodec.ReadModuleOfEnc` | src/java.base/share/classes/jdk/internal/classfile/attribute/ModuleAttribute.java:47-48 | Reading the encoded body from the front of any byte string returns the body and leaves the bytes after it. |
| `RawCodec.TrailingBytesRefused` | src/java.base/share/classes/jdk/internal/classfile/attribute/ModuleAttribute.java:47-48 | Bytes after an encoded body are refused, and the error counts them. |
| `RawCodec.PrefixRefused` | src/java.base/share/classes/jdk/internal/classfile/attribute/ModuleAttribute.java:47-48 | Every proper prefix of an encoded body is refused. |
| `RawCodec.UnqualifiedGrant` | src/java.base/share/classes/jdk/internal/classfile/attribute/ModuleAttribute.java:233 | An export or open with no targets is written with a `to_count` of 0. |
| `RawCodec.GrantLayout` | src/java.base/share/classes/jdk/internal/classfile/attribute/ModuleAttribute.java:233 | An export or open, with or without targets, is written as its index, its flags and its `to_count`, followed by each target's `u2`, in order; its length is 6 plus 2 per target. |
| `ModuleCodec.VersionZeroIffAbsent` | src/java.base/share/classes/jdk/internal/classfile/attribute/ModuleAttribute.java:87 | An absent version writes index 0 and a present one never does. Index 0, and no other index, reads as absent. |
| `ModuleCodec.ResolveOfLower` | src/java.base/share/classes/jdk/internal/classfile/attribute/ModuleAttribute.java:47-48 | An attribute that stands in a valid pool and fits its fields lowers to indices that fit and resolve back to it. |
| `ModuleCodec.LowerOfResolve` | src/java.base/share/classes/jdk/internal/classfile/attribute/ModuleAttribute.java:47-48 | A body that resolves lowers back to the same indices. The resulting attribute stands in the pool, and it fits whenever the body does. |
| `ModuleCodec.DecodeOfEncode` | src/java.base/share/classes/jdk/internal/classfile/attribute/ModuleAttribute.java:47-48 | Decoding the encoding of an attribute gives the attribute back, provided it stands in a valid pool and its masks and tables fit `u2` fields. |
| `ModuleCodec.EncodeOfDecode` | src/java.base/share/classes/jdk/internal/classfile/attribute/ModuleAttribute.java:47-48 | In a valid pool, one that holds each entry at one index, bytes that decode are exactly the encoding of the attribute they decode to. That attribute stands in the pool and fits. |
| `ModuleCodec.PackageTargetsLayout` | src/java.base/share/classes/jdk/internal/classfile/attribute/ModuleAttribute.java:260 | An export or open with no target modules is written with `to_count` 0. Otherwise each target's index is written in the given order. |
| `ModuleBuilder.ModuleAttributeBuilder.FromDesc` | src/java.base/share/classes/jdk/internal/classfile/attribute/ModuleAttribute.java:145 | A new builder holds the given name, no flags, no version and empty tables. |
| `ModuleBuilder.ModuleAttributeBuilder.FromEntry` | src/java.base/share/classes/jdk/internal/classfile/attribute/ModuleAttribute.java:158 | A new builder holds the given entry, no flags, no version and empty tables. |
| `ModuleBuilder.ModuleAttributeBuilder.ModuleName` | src/java.base/share/classes/jdk/internal/classfile/attribute/ModuleAttribute.java:174 | Sets the name and changes nothing else. |
| `ModuleBuilder.ModuleAttributeBuilder.ModuleFlagsMask` | src/java.base/share/classes/jdk/internal/classfile/attribute/ModuleAttribute.java:181 | Sets the mask and changes nothing else. |
| `ModuleBuilder.ModuleAttributeBuilder.ModuleFlags` | src/java.base/share/classes/jdk/internal/classfile/attribute/ModuleAttribute.java:188-190 | Sets the mask to the OR of the flags' bits. A flag that is not a module flag fails and changes nothing. |
| `ModuleBuilder.ModuleAttributeBuilder.ModuleVersion` | src/java.base/share/classes/jdk/internal/classfile/attribute/ModuleAttribute.java:197 | Sets the version, or clears it for a null one, and changes nothing else. |
| `ModuleBuilder.ModuleAttributeBuilder.Requires` | src/java.base/share/classes/jdk/internal/classfile/attribute/ModuleAttribute.java:206 | Appends one requires entry built from the arguments and changes nothing else. |
| `ModuleBuilder.ModuleAttributeBuilder.RequiresFlags` | src/java.base/share/classes/jdk/internal/classfile/attribute/ModuleAttribute.java:215-217 | Appends the entry the mask form would append for the OR of the flags' bits. A flag that does not belong to requires fails and changes nothing. |
| `ModuleBuilder.ModuleAttributeBuilder.RequiresInfo` | src/java.base/share/classes/jdk/internal/classfile/attribute/ModuleAttribute.java:224 | Appends the given entry and changes nothing else. |
| `ModuleBuilder.ModuleAttributeBuilder.Exports` | src/java.base/share/classes/jdk/internal/classfile/attribute/ModuleAttribute.java:233 | Appends one exports entry with the targets in the given order and changes nothing else. |
| `ModuleBuilder.ModuleAttributeBuilder.ExportsFlags` | src/java.base/share/classes/jdk/internal/classfile/attribute/ModuleAttribute.java:242-244 | Appends what the mask form would append for the OR of the flags' bits. A flag that is not an exports flag fails and changes nothing. |
| `ModuleBuilder.ModuleAttributeBuilder.ExportsInfo` | src/java.base/share/classes/jdk/internal/classfile/attribute/ModuleAttribute.java:251 | Appends the given entry and changes nothing else. |
| `ModuleBuilder.ModuleAttributeBuilder.Opens` | src/java.base/share/classes/jdk/internal/classfile/attribute/ModuleAttribute.java:260 | Appends one opens entry with the targets in the given order and changes nothing else. |
| `ModuleBuilder.ModuleAttributeBuilder.OpensFlags` | src/java.base/share/classes/jdk/internal/classfile/attribute/ModuleAttribute.java:269-271 | Appends what the mask form would append for the OR of the flags' bits. A flag that is not an opens flag fails and changes nothing. |
| `ModuleBuilder.ModuleAttributeBuilder.OpensInfo` | src/java.base/share/classes/jdk/internal/classfile/attribute/ModuleAttribute.java:278 | Appends the given entry and changes nothing else. |
| `ModuleBuilder.ModuleAttributeBuilder.Uses` | src/java.base/share/classes/jdk/internal/classfile/attribute/ModuleAttribute.java:285 | Appends the class entry of the service and changes nothing else. |
| `ModuleBuilder.ModuleAttributeBuilder.UsesEntry` | src/java.base/share/classes/jdk/internal/classfile/attribute/ModuleAttribute.java:292 | Appends the given class entry and changes nothing else. |
| `ModuleBuilder.ModuleAttributeBuilder.Provides` | src/java.base/share/classes/jdk/internal/classfile/attribute/ModuleAttribute.java:300 | Appends one provides entry with the implementations in the given order and changes nothing else. |
| `ModuleBuilder.ModuleAttributeBuilder.ProvidesInfo` | src/java.base/share/classes/jdk/internal/classfile/attribute/ModuleAttribute.java:307 | Appends the given entry and changes nothing else. |
| `ModuleBuilder.ModuleAttributeBuilder.Build` | src/java.base/share/classes/jdk/internal/classfile/attribute/ModuleAttribute.java:313 | Returns the attribute the builder holds. |
| `ModuleBuilder.ModuleAttributeBuilder.Apply` | src/java.base/share/classes/jdk/internal/classfile/attribute/ModuleAttribute.java:166-314 | Making one call changes the builder's state to what `Step` gives. A failing call reports its error and changes nothing. |
| `ModuleBuilder.ModuleAttributeBuilder.ApplyHeader` | src/java.base/share/classes/jdk/internal/classfile/attribute/ModuleAttribute.java:174-197 | For a call that sets the name, the flags mask, the named flags or the version: the builder's state becomes what `Step` gives. A failing call reports its error and changes nothing. |
| `ModuleBuilder.ModuleAttributeBuilder.ApplyRequire` | src/java.base/share/classes/jdk/internal/classfile/attribute/ModuleAttribute.java:206-224 | For a call that adds a requires entry: the builder's state becomes what `Step` gives. A failing call reports its error and changes nothing. |
| `ModuleBuilder.ModuleAttributeBuilder.ApplyExport` | src/java.base/share/classes/jdk/internal/classfile/attribute/ModuleAttribute.java:233-251 | For a call that adds an exports entry: the builder's state becomes what `Step` gives. A failing call reports its error and changes nothing. |
| `ModuleBuilder.ModuleAttributeBuilder.ApplyOpen` | src/java.base/share/classes/jdk/internal/classfile/attribute/ModuleAttribute.java:260-278 | For a call that adds an opens entry: the builder's state becomes what `Step` gives. A failing call reports its error and changes nothing. |
| `ModuleBuilder.ModuleAttributeBuilder.ApplyUse` | src/java.base/share/classes/jdk/internal/classfile/attribute/ModuleAttribute.java:285-292 | For a call that adds a uses entry: the builder's state becomes what `Step` gives. A failing call reports its error and changes nothing. |
| `ModuleBuilder.ModuleAttributeBuilder.ApplyProvide` | src/java.base/share/classes/jdk/internal/classfile/attribute/ModuleAttribute.java:300-307 | For a call that adds a provides entry: the builder's state becomes what `Step` gives. A failing call reports its error and changes nothing. |
| `ModuleBuilder.RunHandler` | src/java.base/share/classes/jdk/internal/classfile/attribute/ModuleAttribute.java:145-147 | Handing a builder the handler's calls and then building gives `Run` of those calls from the builder's state. |
| `ModuleBuilder.OfDesc` | src/java.base/share/classes/jdk/internal/classfile/attribute/ModuleAttribute.java:143-148 | `of(ModuleDesc, handler)` is `Run` of the handler's calls from a fresh attribute with that name. |
| `ModuleBuilder.OfEntry` | src/java.base/share/classes/jdk/internal/classfile/attribute/ModuleAttribute.java:156-161 | `of(ModuleEntry, handler)` is `Run` of the handler's calls from a fresh attribute with that entry. |
| `ModuleBuilder.RunConcat` | src/java.base/share/classes/jdk/internal/classfile/attribute/ModuleAttribute.java:166-314 | Running two call sequences one after the other is running their concatenation. A failure in the first ends both. |
| `ModuleBuilder.RunName` | src/java.base/share/classes/jdk/internal/classfile/attribute/ModuleAttribute.java:174 | A successful run ends with the name of its last `moduleName` call. With no such call, it ends with the name it started with. |
| `ModuleBuilder.OfKeepsName` | src/java.base/share/classes/jdk/internal/classfile/attribute/ModuleAttribute.java:143-148 | `of(name, handler)` carries `name` when the handler never calls `moduleName`. |
| `ModuleBuilder.ModuleFlagsOverload` | src/java.base/share/classes/jdk/internal/classfile/attribute/ModuleAttribute.java:188-190 | The named-flags call equals the mask call on the OR of the module flags' bits, or fails with the conversion's error. Afterwards `moduleFlags()` is exactly the set of flags given. |
| `ModuleBuilder.RequireFlagsOverload` | src/java.base/share/classes/jdk/internal/classfile/attribute/ModuleAttribute.java:215-217 | The named-flags call equals the mask call on the OR of the requires flags' bits. The entry it adds has exactly the flags given. |
| `ModuleBuilder.ExportFlagsOverload` | src/java.base/share/classes/jdk/internal/classfile/attribute/ModuleAttribute.java:242-244 | The named-flags call equals the mask call on the OR of the exports flags' bits. The entry it adds has exactly the flags given. |
| `ModuleBuilder.OpenFlagsOverload` | src/java.base/share/classes/jdk/internal/classfile/attribute/ModuleAttribute.java:269-271 | The named-flags call equals the mask call on the OR of the opens flags' bits. The entry it adds has exactly the flags given. |
| `ModuleBuilder.StepFrame` | src/java.base/share/classes/jdk/internal/classfile/attribute/ModuleAttribute.java:199-307 | A call that adds to a table adds exactly one entry to that table, at its end. It leaves the name, flags, version and every other table unchanged. A header call changes no table. |
| `ModuleBuilder.StepTables` | src/java.base/share/classes/jdk/internal/classfile/attribute/ModuleAttribute.java:199-307 | One call extends each table by exactly the entries it denotes for that table. |
| `ModuleBuilder.RunTables` | src/java.base/share/classes/jdk/internal/classfile/attribute/ModuleAttribute.java:199-307 | After a successful run, each table is the table it started with, followed by the entries of that table's calls in the order they were made. |
| `FileKeys.FileKey.constructor` | src/java.base/unix/classes/sun/nio/ch/FileKey.java:36-37 | A key holds the device and inode numbers it is given. |
| `FileKeys.FoldHalves` | src/java.base/unix/classes/sun/nio/ch/FileKey.java:49 | `(int)(x ^ (x >>> 32))` is the low 32 bits of `x` XOR its high 32 bits. |
| `FileKeys.HashCodeWraps` | src/java.base/unix/classes/sun/nio/ch/FileKey.java:48-50 | The hash is the low 32 bits of the exact sum of the two folds. The sum wraps modulo 2^32. |
| `FileKeys.EqualsReflexive` | src/java.base/unix/classes/sun/nio/ch/FileKey.java:55-56 | A key equals itself. |
| `FileKeys.EqualsIffFields` | src/java.base/unix/classes/sun/nio/ch/FileKey.java:57-59 | Two keys are equal exactly when both their device numbers and their inode numbers are. |
| `FileKeys.EqualsOnlyKeys` | src/java.base/unix/classes/sun/nio/ch/FileKey.java:57 | An object that is not a file key, null included, never equals a key. |
| `FileKeys.EqualsSymmetric` | src/java.base/unix/classes/sun/nio/ch/FileKey.java:53-60 | `a.equals(b)` exactly when `b.equals(a)`. |
| `FileKeys.EqualsTransitive` | src/java.base/unix/classes/sun/nio/ch/FileKey.java:53-60 | Equality of keys is transitive. |
| `FileKeys.EqualKeysHashAlike` | src/java.base/unix/classes/sun/nio/ch/FileKey.java:48-59 | Equal keys have equal hash codes. |

## Left out

Collaborators not modelled:
- `AccessFlag.java`, `Util.java`, `ModuleAttributeBuilderImpl.java`, `BoundAttribute.java` and `UnboundAttribute.java` are not part of this model. What their calls do is taken from the interface's documentation and from JVMS section 4.7.25:
  - `maskToAccessFlags`, `Util.has` and `Util.flagsToBits` are `MaskToFlags`, `Has` and `FlagsToBits`;
  - a fresh builder has no flags, no version and empty tables.
- `AccessFlags.LocationFlags`: only eight of `java.lang.reflect.AccessFlag`'s constants are modelled. They are the module-location flags, plus PUBLIC, FINAL and SUPER, which exercise the wrong-location error. The class, field, method, inner-class and parameter tables list only these, so flags such as STATIC or PRIVATE cannot be named there.
- `maskToAccessFlags`: bits of a mask that name no flag of the location are left unnamed. The JDK's method, which is not part of this model, may instead reject such bits. Only the low 16 bits of a mask can name a flag.

Builder behaviour:
- `ModuleBuilder.Step`: an added entry is appended even when an equal entry is already in its table. The builder implementation, not part of this model, may keep its tables as insertion-ordered sets, which drop such duplicates.
- `ModuleDesc`, `PackageDesc` and `ClassDesc` are given as the strings their entries carry (module name, internal package name, internal class name). The conversion from descriptor to internal form is not modelled. A null version string is `None`.
- Use of a builder after `build()`, and a builder without a name: `ModuleAttribute.java`'s documentation promises no behaviour for either, and both `of(...)` factories supply a name.
- The `Consumer` handler is the sequence of builder calls it makes. `Collection` arguments are sequences.
- An exception from a named-flags call is an `Outcome`/`Result` error. An exception escaping the handler ends `of(...)` with that error.

Codec behaviour:
- Only the attribute body is encoded. The attribute's `attribute_name_index` and `attribute_length`, written by the attribute framework, are not part of this model.
- The constant pool is an abstract map from index to entry. Two things about it are not modelled:
  - The pool builder adds missing entries on write. Here an entry absent from the pool is written as index 0, which reads back as an error.
  - The UTF-8 encoding of entry strings.
- The bound (parsed, lazy, zero-copy) and unbound (constructed) forms of the attribute are one value. Lazy parsing is not modelled.
- `ModuleCodec.EncodeOfDecode`: it holds only in a valid pool, one that holds each entry at one index. A class file's pool may hold equal entries at two indices. A decoded attribute holds its entries by value and does not remember which of two equal entries it named, so re-encoding writes the lower index. With pool `{1: m, 2: m}`, bytes naming index 2 re-encode naming index 1.
- `ModuleCodec.Decode`: it does not enforce two rules of JVMS section 4.7.25. The requires table must not be empty, since every module but `java.base` requires `java.base`. Each provides entry must have at least one implementation. The JDK's reader does not check these either.
- `ModuleCodec.DecodeOfEncode`: it holds only for masks in `0..65535` and tables of at most 65535 entries. A wider mask or a longer table is written as its low 16 bits, as a `u2` write does, so it does not read back.

FileKey:
- `FileKey.create`, `init` and `initIDs` are native `fstat` calls. The constructor takes the two numbers instead.
- `HashCode` is the hash's 32-bit pattern (`bv32`) rather than a signed `int`. The two have the same bits.
