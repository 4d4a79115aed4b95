# dynmap texture, model and storage core in Dafny

This project models the deterministic core of dynmap, the Minecraft live-map
renderer, and proves properties of it. Image decoding, floating point, world
lookups and SQL are parameters or left out. The parts modelled are:

- **Texture packs (`TexturePack`).**
  - The add-on tile-file registry: `findOrAddDynamicTileFile`, `findOrAddDynamicTile`, `findDynamicTile` and `resetFiles`. It is a class over the file list, its name index and the dynamic tile counter.
  - The CUSTOM tile-file arguments.
  - `parseTextureIndex`, which encodes the op code and the tile into a texture id.
  - The per-texel logic of `readColor`: the face UV table, the op-code transforms, clear-inside, the clamped and zero fallbacks, the grass side, the multiplier gate and the layer walk.
  - The tile table: `setTileARGB` and `getTileARGB`.
  - Rectangle copy and overlay, and `makeAlphaPure`.
  - The tiles derived in `loadTerrain`.
  - The resampler's offset and weight tables.
  - Trivial biome-colour detection.
  - `ColorizingData`, `TextureMap`, material-id naming, and colour-map file names.
  - The `faceN`, `patchN-M` and `layerN-M` keys of texture definition lines.
- **Block models (`HDBlockModels`).**
  - Version ranges.
  - Value and block-name tokens.
  - The mod id taken from a file name.
  - The static model tables and the scaled-model memo.
  - The `layer:`, pattern-row, `rotate:`, `boxlist:` and `ignore-updates:` directives of `loadModelFile`.
- **The fluid renderer (`FluidStateRenderer`).** Corner heights, the height key, edge selection, side and top patches, and the mesh cache.
- **The mod API's `BlockModelImpl`.** Ids, names, the metadata mask and the definition line.
- **JSON.**
  - `JSONUtils` path access.
  - The `Json` escaper and serialiser. Escaping follows section 7 of RFC 8259.
  - `ClientComponent` configuration conversion.
  - `Component.unescapeString`.
- **Map storage.**
  - Tile URIs, their parsing and zoom-out, shared by the SQLite and PostgreSQL back ends.
  - SQLite BLOB trimming.
  - The PostgreSQL write guard.
- **Forge `FilePermissions`.** The 1.10.2, 1.8.9 and 1.15.2 classes.

Java semantics the code relies on are in module `JavaLang`:
- 32- and 64-bit wrap-around;
- truncating `/` and `%`;
- `String.split` with its trailing-empty rule;
- `Integer.parseInt` and `toString`;
- which texts `Double.parseDouble` accepts (its value is not computed);
- ASCII case folding.

Exceptions are modelled as error results, never as preconditions.

`BlockStep` is not among the sources. It is modelled with dynmap's declared
order X+, Y+, Z+, X-, Y-, Z-. The vanilla terrain name tables are parameters.

## Model

| member | source | states |
|---|---|---|
| FilePermissions.PermTableLower | forge-1.10.2/src/main/java/org/dynmap/forge_1_10_2/permissions/FilePermissions.java:33-48 | every user key and every permission the constructor stores is lower case |
| FilePermissions.PermTableEntry | forge-1.10.2/src/main/java/org/dynmap/forge_1_10_2/permissions/FilePermissions.java:33-48 | a user's entry is the lower-cased list of the last list-valued key that lower-cases to that user (later keys overwrite earlier ones) |
| FilePermissions.PermTableAbsent | forge-1.10.2/src/main/java/org/dynmap/forge_1_10_2/permissions/FilePermissions.java:33-48 | a name no list-valued key lower-cases to has no entry |
| FilePermissions.FilePermissions.constructor | forge-1.10.2/src/main/java/org/dynmap/forge_1_10_2/permissions/FilePermissions.java:33-48 | the table is the one built from the configuration, and the default set is its "defaultuser" entry |
| FilePermissions.FilePermissions.HasPerm | forge-1.10.2/src/main/java/org/dynmap/forge_1_10_2/permissions/FilePermissions.java:50-56 | granted iff the permission is in the player's set or in the default set; a missing default set raises NullPointerException exactly when the player's own set does not grant it |
| FilePermissions.FilePermissions.MixedCaseNeverGranted | forge-1.10.2/src/main/java/org/dynmap/forge_1_10_2/permissions/FilePermissions.java:50-56 | the permission is not lower-cased before lookup, so one containing an upper-case letter is never granted |
| FilePermissions.FilePermissions.HasOfflinePermissions | forge-1.10.2/src/main/java/org/dynmap/forge_1_10_2/permissions/FilePermissions.java:58-70 | an op gets every requested permission; otherwise the result is the subset `hasPerm` grants for the lower-cased name, and it fails iff some lookup reaches the missing default set |
| FilePermissions.FilePermissions.HasOfflinePermissionsLoop | forge-1.8.9/src/main/java/org/dynmap/forge_1_8_9/permissions/FilePermissions.java:58-72 | the 1.8.9 loop returns the same set (or error) as the stream filter of 1.10.2 and 1.15.2 |
| FilePermissions.FilePermissions.HasOfflinePermission | forge-1.10.2/src/main/java/org/dynmap/forge_1_10_2/permissions/FilePermissions.java:72-80 | an op is granted everything; anyone else goes through `hasPerm` with the lower-cased name |
| FilePermissions.FilePermissions.OfflineChecksAgree | forge-1.10.2/src/main/java/org/dynmap/forge_1_10_2/permissions/FilePermissions.java:58-80 | the single-permission check grants a permission iff the set query keeps it |
| FilePermissions.FilePermissions.Has | forge-1.10.2/src/main/java/org/dynmap/forge_1_10_2/permissions/FilePermissions.java:83-88 | a sender that is not a player may do anything; a player goes through `hasPerm` with the lower-cased name, with no op override |
| FilePermissions.FilePermissions.HasPermissionNode | forge-1.10.2/src/main/java/org/dynmap/forge_1_10_2/permissions/FilePermissions.java:90-96 | holds iff the sender is a player who is an op |
| FilePermissions.FilePermissions.HasNullable | forge-1.15.2/src/main/java/org/dynmap/forge_1_15_2/permissions/FilePermissions.java:83-89 | a null player may do anything; a present player is checked as in `has` |
| FilePermissions.FilePermissions.HasPermissionNodeNullable | forge-1.15.2/src/main/java/org/dynmap/forge_1_15_2/permissions/FilePermissions.java:91-97 | a null player holds no node; a present player holds one iff they are an op |
| Component.UnescapeString | DynmapCore/src/main/java/org/dynmap/Component.java:15-20 | a string without "&color;" comes back unchanged |
| Component.UnescapeWithoutEscape | DynmapCore/src/main/java/org/dynmap/Component.java:15-20 | a string without "&color;" is a fixed point of the substitution |
| Component.UnescapeLength | DynmapCore/src/main/java/org/dynmap/Component.java:15-20 | every replaced escape shortens the string by exactly six characters |
| Component.PrefixSurvives | DynmapCore/src/main/java/org/dynmap/Component.java:15-20 | a prefix of the result free of the section sign is also a prefix of the input |
| Component.UnescapeHead | DynmapCore/src/main/java/org/dynmap/Component.java:15-20 | an escape at the head becomes one section sign followed by the substitution of the rest |
| Component.NoEscapeLeft | DynmapCore/src/main/java/org/dynmap/Component.java:15-20 | the result contains no "&color;" (a replacement never creates a new escape) |
| ClientComponents.Convert | DynmapCore/src/main/java/org/dynmap/ClientComponent.java:54-61 | anything other than a map or a list is returned as it is; the only failure is the cast error of a nested store |
| ClientComponents.StoreAll | DynmapCore/src/main/java/org/dynmap/ClientComponent.java:38-44 | the loop of `convertMap`: every entry stored with `setValue` in order; the only failure is a ClassCastException |
| ClientComponents.ConvertItems | DynmapCore/src/main/java/org/dynmap/ClientComponent.java:47-51 | `convertList` has one converted element per element, in order |
| ClientComponents.ConvertItemsFails | DynmapCore/src/main/java/org/dynmap/ClientComponent.java:47-51 | `convertList` fails exactly when converting some element fails |
| ClientComponents.ConvertMap | DynmapCore/src/main/java/org/dynmap/ClientComponent.java:38-44 | the loop over the entries yields the stored-all object of a fresh empty object |
| ClientComponents.ConvertFlatSucceeds | DynmapCore/src/main/java/org/dynmap/ClientComponent.java:38-61 | a configuration with no '/' in any key always converts |
| ClientComponents.StoreAllFlat | DynmapCore/src/main/java/org/dynmap/ClientComponent.java:38-44 | with plain keys, storing the entries never fails |
| ClientComponents.StoreAllFlatAbsent | DynmapCore/src/main/java/org/dynmap/ClientComponent.java:38-44 | with plain keys, a key no entry names keeps the value it had |
| ClientComponents.StoreAllFlatGet | DynmapCore/src/main/java/org/dynmap/ClientComponent.java:38-44 | with plain keys, each entry's key holds that entry's converted value unless a later entry reuses the key |
| ClientComponents.StoreAllLastReadsBack | DynmapCore/src/main/java/org/dynmap/ClientComponent.java:38-44 | the last stored entry reads back along its key's path |
| ClientComponents.ClientComponent.constructor | DynmapCore/src/main/java/org/dynmap/ClientComponent.java:15-21 | a new component keeps its configuration and starts enabled |
| ClientComponents.ClientComponent.DisableComponent | DynmapCore/src/main/java/org/dynmap/ClientComponent.java:23-25 | afterwards the component is disabled |
| ClientComponents.ClientComponent.ClientConfiguration | DynmapCore/src/main/java/org/dynmap/ClientComponent.java:32-36 | the converted configuration with "class" removed and every other top-level key as converted; it fails iff the conversion fails |
| ClientComponents.ClientComponent.CreateClientConfiguration | DynmapCore/src/main/java/org/dynmap/ClientComponent.java:32-36 | returns the client configuration described above |
| ClientComponents.ClientComponent.BuildClientConfiguration | DynmapCore/src/main/java/org/dynmap/ClientComponent.java:27-30 | the client configuration is appended to root's "components" array, or the conversion error surfaces |
| ClientComponents.ClientComponent.OnBuildClientConfiguration | DynmapCore/src/main/java/org/dynmap/ClientComponent.java:17-20 | a disabled component leaves root unchanged; an enabled one builds as above |
| ClientComponents.BuildAppendsOne | DynmapCore/src/main/java/org/dynmap/ClientComponent.java:27-30 | one build appends exactly one object to "components" (creating the array when absent) and leaves root's other members alone |
| JSONUtils.GetFindsEntry | DynmapCore/src/main/java/org/dynmap/JSONUtils.java:30 | `o.get(k)` is non-null only when some member is named k with that value, and null when no member is named k |
| JSONUtils.Put | DynmapCore/src/main/java/org/dynmap/JSONUtils.java:57 | after `put(k, v)` the key reads v and every other key reads what it did |
| JSONUtils.PutKeys | DynmapCore/src/main/java/org/dynmap/JSONUtils.java:57 | `put` adds exactly its key to the key set and keeps keys unique |
| JSONUtils.Remove | DynmapCore/src/main/java/org/dynmap/ClientComponent.java:34 | after `remove(k)` the key reads null and every other key is untouched |
| JSONUtils.SplitFirst | DynmapCore/src/main/java/org/dynmap/JSONUtils.java:28-33 | no split iff the path has no '/'; otherwise a '/'-free key, the first '/', and the rest, which rejoin to the path |
| JSONUtils.SplitFirstOf | DynmapCore/src/main/java/org/dynmap/JSONUtils.java:28-33 | splitting `k + "/" + rest` with a '/'-free k gives back k and rest |
| JSONUtils.LastSegment | DynmapCore/src/main/java/org/dynmap/JSONUtils.java:27-43 | the part of the path after its last '/' (or the whole path), which is where `getValue` finally looks |
| JSONUtils.GetValue | DynmapCore/src/main/java/org/dynmap/JSONUtils.java:27-43 | with no '/' in the path the result is `o.get(path)` |
| JSONUtils.GetValueClosedForm | DynmapCore/src/main/java/org/dynmap/JSONUtils.java:32-42 | because the recursion stays on the same object, the result is `o.get(last segment)` when every earlier segment is a present top-level key, and null otherwise |
| JSONUtils.GetValueSkipsChild | DynmapCore/src/main/java/org/dynmap/JSONUtils.java:38-41 | `getValue(o, "a/b")` equals `o.get("b")` whenever "a" is present |
| JSONUtils.SetValue | DynmapCore/src/main/java/org/dynmap/JSONUtils.java:54-71 | with no '/' the result is exactly `o.put(path, value)`; the only failure is a ClassCastException |
| JSONUtils.SetValueStepOk | DynmapCore/src/main/java/org/dynmap/JSONUtils.java:58-70 | a successful "k/rest" store puts under k the child (existing or fresh) with rest stored into it |
| JSONUtils.SetValueReadsBack | DynmapCore/src/main/java/org/dynmap/JSONUtils.java:54-71 | after a successful store, following the path through the nested objects yields the value |
| JSONUtils.SetValueKeepsUnique | DynmapCore/src/main/java/org/dynmap/JSONUtils.java:54-71 | a store keeps member names unique at every level |
| JSONUtils.SetValueKeepsOtherMembers | DynmapCore/src/main/java/org/dynmap/JSONUtils.java:54-71 | a store changes only the top-level member named by the path's first segment |
| JSONUtils.SetValueOnEmptySucceeds | DynmapCore/src/main/java/org/dynmap/JSONUtils.java:63-65 | storing into an empty object never fails: missing objects along the path are created |
| JSONUtils.SetValueCreatesChild | DynmapCore/src/main/java/org/dynmap/JSONUtils.java:63-65 | when k is absent, "k/rest" creates a fresh object under k and stores rest into it |
| JSONUtils.SetValueCastFails | DynmapCore/src/main/java/org/dynmap/JSONUtils.java:66-68 | an existing non-object under k makes "k/rest" raise a ClassCastException |
| JSONUtils.Array | DynmapCore/src/main/java/org/dynmap/JSONUtils.java:86-97 | the only failure of `array` is a ClassCastException |
| JSONUtils.ArrayOnPlainKey | DynmapCore/src/main/java/org/dynmap/JSONUtils.java:86-97 | on a plain key, the array found there (or a fresh empty one) gets `value` appended only when it is non-null, and other keys are untouched |
| JSONUtils.ArrayOnNonArray | DynmapCore/src/main/java/org/dynmap/JSONUtils.java:92-94 | a non-array already under the key raises a ClassCastException |
| JSONUtils.ArrayNestedPathForgets | DynmapCore/src/main/java/org/dynmap/JSONUtils.java:38-97 | since `getValue` looks in the wrong object, a second `array` call on "a/b" finds nothing and replaces the first array: the path ends up holding only the second value |
| JSONUtils.MakeJSONArray | DynmapCore/src/main/java/org/dynmap/JSONUtils.java:112-116 | the array holds exactly the given items, in order |
| Json.HexDigit | DynmapCore/src/main/java/org/dynmap/web/Json.java:48-49 | a hex digit is a decimal digit or an upper-case A-F |
| Json.Hex4 | DynmapCore/src/main/java/org/dynmap/web/Json.java:48-49 | the hex form padded to exactly four digits |
| Json.UnicodeEscape | DynmapCore/src/main/java/org/dynmap/web/Json.java:48-49 | a \\u escape is exactly six characters |
| Json.Escape | DynmapCore/src/main/java/org/dynmap/web/Json.java:18-56 | the loop appends the escaped form of the whole string, character by character |
| Json.EscapedAppend | DynmapCore/src/main/java/org/dynmap/web/Json.java:18-56 | escaping distributes over concatenation |
| Json.EscapedPrintable | DynmapCore/src/main/java/org/dynmap/web/Json.java:46-53 | every character of the escaped text is printable ASCII |
| Json.HexDigitValue | DynmapCore/src/main/java/org/dynmap/web/Json.java:48-49 | reading a written hex digit gives back its value |
| Json.Hex4RoundTrip | DynmapCore/src/main/java/org/dynmap/web/Json.java:48-49 | reading the four written hex digits gives back the UTF-16 unit |
| Json.UnicodeEscapeDecodes | DynmapCore/src/main/java/org/dynmap/web/Json.java:47-50 | a written \\u escape decodes to its unit under section 7 of RFC 8259 |
| Json.DecodeShort | DynmapCore/src/main/java/org/dynmap/web/Json.java:22-45 | each two-character escape decodes to the character it stands for |
| Json.DecodePlain | DynmapCore/src/main/java/org/dynmap/web/Json.java:51-53 | printable ASCII other than '"', '\\' and '/' is copied and decodes to itself |
| Json.DecodeBmp | DynmapCore/src/main/java/org/dynmap/web/Json.java:47-50 | a control or non-ASCII character of the basic plane decodes from its six-character escape |
| Json.EscapeCharPair | DynmapCore/src/main/java/org/dynmap/web/Json.java:47-50 | a character outside the basic plane is written as the escapes of its two UTF-16 surrogates, as Java's char loop does |
| Json.DecodeSurrogates | DynmapCore/src/main/java/org/dynmap/web/Json.java:47-50 | an escaped high and low surrogate decode together to one supplementary character |
| Json.DecodePair | DynmapCore/src/main/java/org/dynmap/web/Json.java:47-50 | a supplementary character decodes from its 12-character escape |
| Json.DecodeEscapeChar | DynmapCore/src/main/java/org/dynmap/web/Json.java:18-56 | every character decodes from its own escape, consuming exactly the escape |
| Json.EscapeRoundTrip | DynmapCore/src/main/java/org/dynmap/web/Json.java:18-56 | unescaping the output per section 7 of RFC 8259 recovers the input string |
| Json.MemberTextAt | DynmapCore/src/main/java/org/dynmap/web/Json.java:69-83 | member i is written as the quoted key, ": ", and the value's text |
| Json.ItemTexts | DynmapCore/src/main/java/org/dynmap/web/Json.java:84-101 | one text per element, each the element's own text, in order |
| Json.AppendString | DynmapCore/src/main/java/org/dynmap/web/Json.java:63-66 | a string is appended as '"' + escape(s) + '"' |
| Json.AppendJson | DynmapCore/src/main/java/org/dynmap/web/Json.java:58-101 | `appendJson` appends the value's text: "null", "true"/"false", the quoted string, the number's text, "{" members joined by "," "}" or "[" items joined by "," "]" |
| Json.AppendMember | DynmapCore/src/main/java/org/dynmap/web/Json.java:79-81 | one map entry appends the quoted key, ": ", and the value's text |
| Json.AppendMembers | DynmapCore/src/main/java/org/dynmap/web/Json.java:72-82 | the map loop appends the member texts joined by "," |
| Json.AppendItems | DynmapCore/src/main/java/org/dynmap/web/Json.java:86-91 | the list loop appends the element texts joined by "," |
| Json.JoinCommaSnoc | DynmapCore/src/main/java/org/dynmap/web/Json.java:74-77 | adding one more member adds a "," before it unless it is the first |
| Json.StringifyJson | DynmapCore/src/main/java/org/dynmap/web/Json.java:12-16 | `toJson` returns exactly the value's text |
| Json.QuotedAscii | DynmapCore/src/main/java/org/dynmap/web/Json.java:63-66 | a written string literal is printable ASCII |
| Json.StringifyAscii | DynmapCore/src/main/java/org/dynmap/web/Json.java:58-101 | a value whose numbers are written in ASCII is written as printable ASCII throughout |
| ModelVersions.NormalizeFrom | DynmapCore/src/main/java/org/dynmap/hdmap/HDBlockModels.java:1082-1099 | the output holds only digits and dots and is never longer than the input |
| ModelVersions.NormalizeVersion | DynmapCore/src/main/java/org/dynmap/hdmap/HDBlockModels.java:1082-1099 | the loop builds the normalised version: digits and dots kept, each run of other characters turned into one '.' |
| ModelVersions.NormalizeAppend | DynmapCore/src/main/java/org/dynmap/hdmap/HDBlockModels.java:1082-1099 | normalising a concatenation is normalising each part, the second one starting in the state the first one left |
| ModelVersions.NormalizeClean | DynmapCore/src/main/java/org/dynmap/hdmap/HDBlockModels.java:1082-1099 | a version of digits and dots only is left unchanged |
| ModelVersions.NormalizeIdempotent | DynmapCore/src/main/java/org/dynmap/hdmap/HDBlockModels.java:1082-1099 | normalising twice is the same as normalising once |
| ModelVersions.NormalizeRun | DynmapCore/src/main/java/org/dynmap/hdmap/HDBlockModels.java:1091-1096 | a run of other characters becomes one '.' (nothing when the previous character already was replaced) |
| ModelVersions.NormalizeCollapsesRun | DynmapCore/src/main/java/org/dynmap/hdmap/HDBlockModels.java:1082-1099 | between two clean parts, a maximal run of other characters becomes exactly one '.' |
| ModelVersions.ParseVersion | DynmapCore/src/main/java/org/dynmap/hdmap/HDBlockModels.java:1101-1117 | `parseVersion` is the 64-bit sum of up to six components weighted 10^10 down to 1, 99 for missing components of an upper bound and 0 for unparseable ones |
| ModelVersions.SumComponents | DynmapCore/src/main/java/org/dynmap/hdmap/HDBlockModels.java:1104-1116 | the loop over the six weights accumulates the wrapped 64-bit sum of the component terms |
| ModelVersions.AddComponent | DynmapCore/src/main/java/org/dynmap/hdmap/HDBlockModels.java:1106-1113 | one step adds the weighted component, 99 times the weight for a missing component of an upper bound, or nothing |
| ModelVersions.LongStep | DynmapCore/src/main/java/org/dynmap/hdmap/HDBlockModels.java:1108 | adding with Java's long wrap-around at each step gives the wrapped exact sum |
| ModelVersions.CheckVersionRange | DynmapCore/src/main/java/org/dynmap/hdmap/HDBlockModels.java:1118-1132 | textual equality means inside; a version that parses to 0 is never inside |
| ModelVersions.CheckVersionRangeSingle | DynmapCore/src/main/java/org/dynmap/hdmap/HDBlockModels.java:1121-1131 | a range without '-' is inside iff low <= ver <= high with the same string as both bounds (missing parts of the upper bound read as 99) |
| ModelVersions.CheckVersionRangePair | DynmapCore/src/main/java/org/dynmap/hdmap/HDBlockModels.java:1121-1131 | for "low-high" the version is inside iff it parses non-zero, is at least low when low is non-empty and at most high when high is non-empty |
| ModelVersions.ComponentsOfJoin | DynmapCore/src/main/java/org/dynmap/hdmap/HDBlockModels.java:1102-1103 | splitting dotted clean components gives the components back |
| ModelVersions.SumOfTwo | DynmapCore/src/main/java/org/dynmap/hdmap/HDBlockModels.java:1105-1114 | a two-component version weighs its parts 10^10 and 10^8, with 99999999 added for an upper bound |
| ModelVersions.SumOfThree | DynmapCore/src/main/java/org/dynmap/hdmap/HDBlockModels.java:1105-1114 | a three-component lower bound weighs its parts 10^10, 10^8 and 10^6 |
| ModelVersions.ValueOfTwo | DynmapCore/src/main/java/org/dynmap/hdmap/HDBlockModels.java:1101-1117 | the value of "a.b" as a bound |
| ModelVersions.ValueOfThree | DynmapCore/src/main/java/org/dynmap/hdmap/HDBlockModels.java:1101-1117 | the value of "a.b.c" as a version |
| ModelVersions.RangeContainsSubVersion | DynmapCore/src/main/java/org/dynmap/hdmap/HDBlockModels.java:1118-1132 | "a.b.c" is inside "a.lo-a.hi" whenever lo <= b <= hi (so "1.12.2" is inside "1.10-1.14") |
| ModelVersions.PrefixRangeContainsSubVersion | DynmapCore/src/main/java/org/dynmap/hdmap/HDBlockModels.java:1118-1132 | "a.b.c" is inside the single range "a.b" (so "1.12.2" is inside "1.12") |
| ModelVersions.RangeExcludesOutside | DynmapCore/src/main/java/org/dynmap/hdmap/HDBlockModels.java:1118-1132 | "a.b" is outside "a.lo-a.hi" when b < lo or b > hi (so "1.9" is not inside "1.10-1.14") |
| ModelTokens.WithOffset | DynmapCore/src/main/java/org/dynmap/hdmap/HDBlockModels.java:256-257 | the offset is added (with 32-bit wrap-around) only to a positive stored value; zero or negative values and a zero offset are returned unchanged |
| ModelTokens.GetIntValue | DynmapCore/src/main/java/org/dynmap/hdmap/HDBlockModels.java:237-263 | existing variables are never changed and only a new '%'/'&' name is added, as 0; an empty token fails on `charAt(0)`; a numeric token is parsed directly, a bad one raising NumberFormatException |
| ModelTokens.GetIntValueOfNumber | DynmapCore/src/main/java/org/dynmap/hdmap/HDBlockModels.java:260-262 | a printed 32-bit number reads back as itself and leaves the variables alone |
| ModelTokens.GetIntValueOfName | DynmapCore/src/main/java/org/dynmap/hdmap/HDBlockModels.java:239-258 | a known name reads its stored value, and "name+k" reads that value with the offset rule applied |
| ModelTokens.GetIntValueUnknown | DynmapCore/src/main/java/org/dynmap/hdmap/HDBlockModels.java:246-255 | an unknown '%'/'&' name is stored as 0 and reads 0; an unknown plain name raises NumberFormatException |
| ModelTokens.GetIntValueStable | DynmapCore/src/main/java/org/dynmap/hdmap/HDBlockModels.java:237-263 | reading the same token again against the updated variables gives the same answer and changes nothing more |
| ModelTokens.GetBlockName | DynmapCore/src/main/java/org/dynmap/hdmap/HDBlockModels.java:265-283 | succeeds iff the token starts with a letter, '%' or '&' (an empty token fails on `charAt(0)`, others with NumberFormatException), and a result always contains ':' |
| ModelTokens.GetBlockNameQualified | DynmapCore/src/main/java/org/dynmap/hdmap/HDBlockModels.java:265-283 | a name that already contains ':' is returned as it is |
| ModelTokens.GetBlockNamePlain | DynmapCore/src/main/java/org/dynmap/hdmap/HDBlockModels.java:265-283 | a plain name, with or without a leading '%' or '&', gets "modid:" prefixed |
| ModelTokens.GetBlockNameIdempotent | DynmapCore/src/main/java/org/dynmap/hdmap/HDBlockModels.java:265-283 | resolving an already resolved name changes nothing (except for tokens of the form "%+..." whose '+' sits at index 0 after the prefix is stripped) |
| HDBlockModels.ScaledModels.constructor | DynmapCore/src/main/java/org/dynmap/hdmap/HDBlockModels.java:121 | a fresh scaled model set for the requested scale |
| HDBlockModels.ModelRegistry.constructor | DynmapCore/src/main/java/org/dynmap/hdmap/HDBlockModels.java:118-125 | the registry starts with no models, no flags and no scaled sets |
| HDBlockModels.ModelRegistry.ResetIfNotBlockSet | DynmapCore/src/main/java/org/dynmap/hdmap/HDBlockModels.java:45-53 | the state's model is removed, and true returned, iff it exists and was defined by a different block set; nothing else changes |
| HDBlockModels.ModelRegistry.NeededTextureCount | DynmapCore/src/main/java/org/dynmap/hdmap/HDBlockModels.java:55-61 | the model's texture count, or 6 when the state has no model |
| HDBlockModels.ModelRegistry.ModelsForScale | DynmapCore/src/main/java/org/dynmap/hdmap/HDBlockModels.java:118-125 | a scale seen before returns the same object; a new scale creates, stores and returns a fresh set; nothing else changes |
| HDBlockModels.ModelRegistry.RemapModel | DynmapCore/src/main/java/org/dynmap/hdmap/HDBlockModels.java:79-96 | as written both states come from `bn`, so every state copies its own model and flags: the registry is left exactly as it was |
| HDBlockModels.ModelRegistry.CopyState | DynmapCore/src/main/java/org/dynmap/hdmap/HDBlockModels.java:86-94 | one loop step: the target state takes the source state's model (or loses its own) and both of its flags |
| HDBlockModels.ModelRegistry.RemapModelIntended | DynmapCore/src/main/java/org/dynmap/hdmap/HDBlockModels.java:79-96 | with `newbn`'s states as targets, state k of `newbn` ends with the model, the change-ignored flag and the tile-data flag of state k mod fcnt of `bn`, and every state outside `newbn` keeps its model and both flags |
| HDBlockModels.StatesOf | DynmapCore/src/main/java/org/dynmap/hdmap/HDBlockModels.java:80-85 | a block's states, at least one |
| HDBlockModels.SetFlag | DynmapCore/src/main/java/org/dynmap/hdmap/HDBlockModels.java:93-94 | `BitSet.set(i, v)`: bit i becomes v and no other bit changes |
| HDBlockModels.ModIdFromFileName | DynmapCore/src/main/java/org/dynmap/hdmap/HDBlockModels.java:143-149 | the result is no longer than the name, and a name with no '/' or '-' past index 0 is returned unchanged |
| HDBlockModels.ModIdOfPath | DynmapCore/src/main/java/org/dynmap/hdmap/HDBlockModels.java:143-149 | "dir/mod-rest" gives "mod" |
| ModelFileLoader.Range | DynmapCore/src/main/java/org/dynmap/hdmap/HDBlockModels.java:358-360 | exactly the data values from the low bound up to (not including) the high bound |
| ModelFileLoader.RangeBits | DynmapCore/src/main/java/org/dynmap/hdmap/HDBlockModels.java:356-360 | "m0-m1" sets exactly the values m0..m1 (nothing when m0 > m1); a negative m0 raises from `BitSet.set`, and m1 = Integer.MAX_VALUE is rejected because the loop counter would overflow |
| ModelFileLoader.DataBits | DynmapCore/src/main/java/org/dynmap/hdmap/HDBlockModels.java:351-363 | "*" clears the set; a single value adds exactly its `getIntValue`, failing on a negative value; bits already set stay set |
| ModelFileLoader.DataBitsRange | DynmapCore/src/main/java/org/dynmap/hdmap/HDBlockModels.java:354-360 | "a-b" with a <= b adds exactly a..b |
| ModelFileLoader.DataBitsOpenRange | DynmapCore/src/main/java/org/dynmap/hdmap/HDBlockModels.java:354-357 | "a-" splits into a single piece, so reading `sp[1]` raises ArrayIndexOutOfBoundsException |
| ModelFileLoader.PatchIndices | DynmapCore/src/main/java/org/dynmap/hdmap/HDBlockModels.java:892-895 | the patch numbers of a box: the slash-separated values in the first six slots, 0 for slots with no value; any unparseable one raises NumberFormatException |
| ModelFileLoader.BoxOf | DynmapCore/src/main/java/org/dynmap/hdmap/HDBlockModels.java:887-912 | a `box=` value fails, always with NumberFormatException, exactly when it has seven or more fields and its patch list does not parse, or one of its first six fields is not a Java double; a box always has six patch slots |
| ModelFileLoader.BoxFallsThrough | DynmapCore/src/main/java/org/dynmap/hdmap/HDBlockModels.java:890-910 | the switch falls through: limit i is set exactly when the value has more than i fields, and with fewer than seven fields the patches stay 0 |
| ModelFileLoader.BoxLimitsAreNumbers | DynmapCore/src/main/java/org/dynmap/hdmap/HDBlockModels.java:896-907 | every limit of a parsed box was read from a field that `Double.parseDouble` accepts |
| ModelFileLoader.BoxOfLetterThrows | DynmapCore/src/main/java/org/dynmap/hdmap/HDBlockModels.java:906-907 | a first field starting with a letter other than N and I makes the box throw NumberFormatException |
| JavaLang.WalkAppend | DynmapCore/src/main/java/org/dynmap/hdmap/HDBlockModels.java:896-907 | scanning a text for `Double.parseDouble` is scanning its first part and then the rest from where that stopped |
| JavaLang.ParsedIntIsDouble | DynmapCore/src/main/java/org/dynmap/hdmap/HDBlockModels.java:896-907 | every text `Integer.parseInt` accepts, `Double.parseDouble` accepts too |
| JavaLang.FractionIsDouble | DynmapCore/src/main/java/org/dynmap/hdmap/HDBlockModels.java:896-907 | one or more digits, a '.', and any digits make a Java double |
| JavaLang.LetterIsNotDouble | DynmapCore/src/main/java/org/dynmap/hdmap/HDBlockModels.java:896-907 | a text starting with an ASCII letter other than N and I is not a Java double |
| ModelFileLoader.ArgStep | DynmapCore/src/main/java/org/dynmap/hdmap/HDBlockModels.java:344-368 | one `key=value` argument adds at most one block name, leaves the data set alone unless it is `data=`, and in `rotate:` never touches the data set |
| ModelFileLoader.ArgsFrom | DynmapCore/src/main/java/org/dynmap/hdmap/HDBlockModels.java:344-368 | the argument loop only ever adds block names, and in `rotate:` keeps the data set |
| ModelFileLoader.SkipsBareArguments | DynmapCore/src/main/java/org/dynmap/hdmap/HDBlockModels.java:345-346 | an argument without '=' is skipped |
| ModelFileLoader.LayerBits | DynmapCore/src/main/java/org/dynmap/hdmap/HDBlockModels.java:386-393 | `layer:` fails with NumberFormatException exactly when some argument is not a number |
| ModelFileLoader.Mask | DynmapCore/src/main/java/org/dynmap/hdmap/HDBlockModels.java:391-393 | the OR of the shifted bits is a 32-bit mask |
| ModelFileLoader.LayerBitsFails | DynmapCore/src/main/java/org/dynmap/hdmap/HDBlockModels.java:391-393 | the layer list fails iff some argument does not parse |
| ModelFileLoader.MaskExact | DynmapCore/src/main/java/org/dynmap/hdmap/HDBlockModels.java:391-393 | bit d of the mask is set iff some layer number shifts to d (Java masks shift counts to five bits) |
| ModelFileLoader.LayerBitsExact | DynmapCore/src/main/java/org/dynmap/hdmap/HDBlockModels.java:386-393 | the layer set is exactly the OR of `1 << n` over the listed layers |
| ModelFileLoader.RowCells | DynmapCore/src/main/java/org/dynmap/hdmap/HDBlockModels.java:1040-1052 | a pattern row sets exactly the subblocks (rownum, y, scale-i-1) for every '*' at column i < scale and every y in the layer set |
| ModelFileLoader.ColumnCells | DynmapCore/src/main/java/org/dynmap/hdmap/HDBlockModels.java:1043-1050 | one '*' sets exactly the column (rownum, y, scale-i-1) over the layer set |
| ModelFileLoader.RowCellsInCube | DynmapCore/src/main/java/org/dynmap/hdmap/HDBlockModels.java:1040-1052 | every subblock a row sets lies inside the scale cube |
| ModelFileLoader.RotateCell | DynmapCore/src/main/java/org/dynmap/hdmap/HDBlockModels.java:429-450 | only 0, 90, 180 and 270 move a subblock (to itself, (scale-z-1,y,x), (scale-x-1,y,scale-z-1) and (z,y,scale-x-1)), and y never changes |
| ModelFileLoader.UnrotateCell | DynmapCore/src/main/java/org/dynmap/hdmap/HDBlockModels.java:429-450 | each rotation has an inverse that keeps the cube |
| ModelFileLoader.UnrotateRotate | DynmapCore/src/main/java/org/dynmap/hdmap/HDBlockModels.java:429-450 | each rotation of a subblock is a bijection of the cube |
| ModelFileLoader.RotatedCells | DynmapCore/src/main/java/org/dynmap/hdmap/HDBlockModels.java:425-453 | the subblocks `rotate:` sets are exactly the images of the source model's set subblocks inside the cube |
| ModelFileLoader.Clip | DynmapCore/src/main/java/org/dynmap/hdmap/HDBlockModels.java:425-427 | the source subblocks the loops visit |
| ModelFileLoader.RotateZero | DynmapCore/src/main/java/org/dynmap/hdmap/HDBlockModels.java:430-434 | rotation 0 copies the model unchanged |
| ModelFileLoader.RotateFourQuarters | DynmapCore/src/main/java/org/dynmap/hdmap/HDBlockModels.java:435-439 | four quarter turns give back the original model |
| ModelFileLoader.RotateQuarterThenThree | DynmapCore/src/main/java/org/dynmap/hdmap/HDBlockModels.java:435-449 | 90 then 270 gives back the original model |
| ModelFileLoader.RotateTwoHalves | DynmapCore/src/main/java/org/dynmap/hdmap/HDBlockModels.java:440-444 | two half turns give back the original model |
| ModelFileLoader.RotateOtherAngle | DynmapCore/src/main/java/org/dynmap/hdmap/HDBlockModels.java:429-450 | a multiple of 90 other than 0, 90, 180 and 270 sets nothing |
| ModelFileLoader.RotatedAdd | DynmapCore/src/main/java/org/dynmap/hdmap/HDBlockModels.java:425-453 | a set subblock of the source contributes exactly its rotated image |
| ModelFileLoader.ScannedAll | DynmapCore/src/main/java/org/dynmap/hdmap/HDBlockModels.java:425-427 | once x reaches scale the loops have visited the whole cube |
| ModelFileLoader.RotateResult | DynmapCore/src/main/java/org/dynmap/hdmap/HDBlockModels.java:415-457 | an air id, or a non-volumetric source or a rotation not divisible by 90 with a non-empty model list, aborts the file; otherwise only subblocks are added and each model keeps its states, data and scale |
| ModelFileLoader.SelectedBelow | DynmapCore/src/main/java/org/dynmap/hdmap/HDBlockModels.java:544-549 | the first n states of a block that an empty data set or a set bit selects |
| ModelFileLoader.AfterColon | DynmapCore/src/main/java/org/dynmap/hdmap/HDBlockModels.java:516 | the line after its first ':' |
| ModelFileLoader.SelectedStep | DynmapCore/src/main/java/org/dynmap/hdmap/HDBlockModels.java:544-549 | each state index adds its state iff the data set is empty or holds that index |
| ModelFileLoader.IgnoredStatesExact | DynmapCore/src/main/java/org/dynmap/hdmap/HDBlockModels.java:541-554 | a state is flagged iff one of the named, non-air blocks has it at a selected index |
| ModelFileLoader.IgnoresAllStates | DynmapCore/src/main/java/org/dynmap/hdmap/HDBlockModels.java:546 | an empty data set flags every state of every named block |
| ModelFileLoader.NewVolumetric | DynmapCore/src/main/java/org/dynmap/hdmap/HDBlockModels.java:370-381 | one empty volumetric model per non-air name, each with the current scale and data set |
| ModelFileLoader.NewBoxModels | DynmapCore/src/main/java/org/dynmap/hdmap/HDBlockModels.java:916-930 | one box model per non-air name, each with the parsed boxes and the data set |
| ModelFileLoader.AddedToAll | DynmapCore/src/main/java/org/dynmap/hdmap/HDBlockModels.java:1046-1048 | the same subblocks are set in every model of the current list |
| ModelFileLoader.AddedToAllTwice | DynmapCore/src/main/java/org/dynmap/hdmap/HDBlockModels.java:1046-1048 | setting subblocks in two steps is setting their union |
| ModelFileLoader.AddedToAllNothing | DynmapCore/src/main/java/org/dynmap/hdmap/HDBlockModels.java:1046-1048 | setting no subblocks changes nothing |
| ModelFileLoader.ModelFileLoader.constructor | DynmapCore/src/main/java/org/dynmap/hdmap/HDBlockModels.java:298-312 | the loop starts with scale, row and layer set empty, no variables, no models and mod "minecraft" |
| ModelFileLoader.ModelFileLoader.SetDataBits | DynmapCore/src/main/java/org/dynmap/hdmap/HDBlockModels.java:351-363 | the method fails or updates the data set and variables exactly as the `data=` rule says |
| ModelFileLoader.ModelFileLoader.SetRange | DynmapCore/src/main/java/org/dynmap/hdmap/HDBlockModels.java:358-360 | the range loop sets the bits of the range rule, or fails as it does |
| ModelFileLoader.ModelFileLoader.ApplyArg | DynmapCore/src/main/java/org/dynmap/hdmap/HDBlockModels.java:344-368 | one argument changes the data set and variables as the argument rule says |
| ModelFileLoader.ModelFileLoader.ParseArgs | DynmapCore/src/main/java/org/dynmap/hdmap/HDBlockModels.java:344-368 | the argument loop ends in the state (or the exception) the argument fold describes |
| ModelFileLoader.ModelFileLoader.BlockLine | DynmapCore/src/main/java/org/dynmap/hdmap/HDBlockModels.java:338-385 | `block:` clears the data set and scale, parses the arguments, builds one fresh model per non-air name when there are names and a positive scale, and resets the layer set; an exception ends the file |
| ModelFileLoader.ModelFileLoader.NewModels | DynmapCore/src/main/java/org/dynmap/hdmap/HDBlockModels.java:371-381 | the model list is replaced by the new volumetric models |
| ModelFileLoader.ModelFileLoader.LayerLine | DynmapCore/src/main/java/org/dynmap/hdmap/HDBlockModels.java:386-393 | `layer:` resets the row to 0 and sets the layer set from the listed layers, or raises NumberFormatException |
| ModelFileLoader.ModelFileLoader.AddCell | DynmapCore/src/main/java/org/dynmap/hdmap/HDBlockModels.java:1047 | one `setSubblock` applied to every model of the list |
| ModelFileLoader.ModelFileLoader.SetColumn | DynmapCore/src/main/java/org/dynmap/hdmap/HDBlockModels.java:1044-1050 | one '*' sets its column in every model |
| ModelFileLoader.ModelFileLoader.PatternRow | DynmapCore/src/main/java/org/dynmap/hdmap/HDBlockModels.java:1040-1059 | a row sets its subblocks in every model and moves to the next row; after `scale` rows the row and layer set return to 0 |
| ModelFileLoader.ModelFileLoader.TurnSubblock | DynmapCore/src/main/java/org/dynmap/hdmap/HDBlockModels.java:429-450 | one set source subblock is set, rotated, in every model |
| ModelFileLoader.ModelFileLoader.RotateRow | DynmapCore/src/main/java/org/dynmap/hdmap/HDBlockModels.java:427-451 | the z loop adds the rotated images of one row of the source |
| ModelFileLoader.ModelFileLoader.RotateModels | DynmapCore/src/main/java/org/dynmap/hdmap/HDBlockModels.java:425-453 | the three loops add exactly the rotated image of the source model to every model |
| ModelFileLoader.ModelFileLoader.RotateLine | DynmapCore/src/main/java/org/dynmap/hdmap/HDBlockModels.java:394-457 | `rotate:` parses its arguments, then continues or aborts and updates the models as the rotate rule says; an exception ends the file |
| ModelFileLoader.ModelFileLoader.NewBoxList | DynmapCore/src/main/java/org/dynmap/hdmap/HDBlockModels.java:916-930 | the box-model list is replaced by the new box models |
| ModelFileLoader.ModelFileLoader.BoxListLine | DynmapCore/src/main/java/org/dynmap/hdmap/HDBlockModels.java:860-930 | `boxlist:` clears the data set, parses the arguments (ids, data and boxes) and replaces the box-model list; a box whose limits or patches are not numbers raises NumberFormatException and ends the file |
| ModelFileLoader.ModelFileLoader.IgnoreBlocks | DynmapCore/src/main/java/org/dynmap/hdmap/HDBlockModels.java:541-554 | the change-ignored set grows by exactly the selected states of the named blocks |
| ModelFileLoader.ModelFileLoader.IgnoreUpdatesLine | DynmapCore/src/main/java/org/dynmap/hdmap/HDBlockModels.java:514-554 | `ignore-updates:` parses its arguments from a cleared data set and flags exactly the selected states; on an exception nothing is flagged |
| FluidRenderer.AirHeight | DynmapCore/src/main/java/org/dynmap/hdmap/renderer/FluidStateRenderer.java:66-69 | the air height lies in 1..8, and is 1 exactly for state 0 and states above 7 |
| FluidRenderer.KeyFields | DynmapCore/src/main/java/org/dynmap/hdmap/renderer/FluidStateRenderer.java:71-73 | the four 4-bit fields of a non-negative key |
| FluidRenderer.KeyFieldsOfIntKey | DynmapCore/src/main/java/org/dynmap/hdmap/renderer/FluidStateRenderer.java:71-73 | a key packed from four heights in 0..15 is below 2^16 and unpacks to those heights |
| FluidRenderer.IntKeyInjective | DynmapCore/src/main/java/org/dynmap/hdmap/renderer/FluidStateRenderer.java:71-73 | for heights in 0..15, two keys are equal iff their four heights are |
| FluidRenderer.Weighted | DynmapCore/src/main/java/org/dynmap/hdmap/renderer/FluidStateRenderer.java:97-105 | a full block (air height 1) counts 11 with weight 11, any other height counts itself with weight 1 |
| FluidRenderer.Contribution | DynmapCore/src/main/java/org/dynmap/hdmap/renderer/FluidStateRenderer.java:107-151 | a matching neighbour adds its weighted air height, a non-matching non-solid one adds 9 with weight 1, a solid non-matching one adds nothing |
| FluidRenderer.Totals | DynmapCore/src/main/java/org/dynmap/hdmap/renderer/FluidStateRenderer.java:93-151 | the block's own share keeps the count at least 1, and the sum lies between the count and nine times it |
| FluidRenderer.RoundedMean | DynmapCore/src/main/java/org/dynmap/hdmap/renderer/FluidStateRenderer.java:152 | `(accum + cnt/2) / cnt` is the rounded mean and lies in 1..9 |
| FluidRenderer.CornerHeight | DynmapCore/src/main/java/org/dynmap/hdmap/renderer/FluidStateRenderer.java:87-153 | the height is in 0..9; it is 9 exactly when one of the four blocks above matches the base state; otherwise it is 9 minus the rounded weighted mean |
| FluidRenderer.LowestEdge | DynmapCore/src/main/java/org/dynmap/hdmap/renderer/FluidStateRenderer.java:200-217 | the chosen edge has the smallest height sum, and every edge ranked before it in the order X+, Z+, X-, Z- has a strictly larger sum |
| FluidRenderer.AddSide | DynmapCore/src/main/java/org/dynmap/hdmap/renderer/FluidStateRenderer.java:229-233 | no patch when both heights are 0, otherwise exactly one side patch between the two corners |
| FluidRenderer.AddTop | DynmapCore/src/main/java/org/dynmap/hdmap/renderer/FluidStateRenderer.java:235-259 | one patch when h1 + h2 - h3 == h0, otherwise a lower and an upper triangle whose origin is raised to h1 + h2 - h3; all share the chosen edge |
| FluidRenderer.TopSurfaceOnLowestEdge | DynmapCore/src/main/java/org/dynmap/hdmap/renderer/FluidStateRenderer.java:205-217 | the top surface starts on the lowest edge and every patch has its corners at the computed corner heights |
| FluidRenderer.SidesFollowCorners | DynmapCore/src/main/java/org/dynmap/hdmap/renderer/FluidStateRenderer.java:195-198 | at most four side patches, each between two computed corners |
| FluidRenderer.BuildMeshSize | DynmapCore/src/main/java/org/dynmap/hdmap/renderer/FluidStateRenderer.java:192-218 | a built mesh starts with the bottom patch and has 2 to 7 patches; an all-zero corner set gives bottom and one top |
| FluidRenderer.FlatFill | DynmapCore/src/main/java/org/dynmap/hdmap/renderer/FluidStateRenderer.java:37-41 | pre-filling keeps every key already cached |
| FluidRenderer.FlatFillLookup | DynmapCore/src/main/java/org/dynmap/hdmap/renderer/FluidStateRenderer.java:37-41 | after pre-filling, the key of four equal heights h in 0..9 holds the flat box for h; every other key is as before |
| FluidRenderer.ShortcutAgrees | DynmapCore/src/main/java/org/dynmap/hdmap/renderer/FluidStateRenderer.java:160-163 | when the block above is the same fluid, all four corners would be 9, so the cached (9,9,9,9) model is the right one |
| FluidRenderer.FluidStateRenderer.constructor | DynmapCore/src/main/java/org/dynmap/hdmap/renderer/FluidStateRenderer.java:28-30 | the mesh cache starts empty |
| FluidRenderer.FluidStateRenderer.GetCachedModel | DynmapCore/src/main/java/org/dynmap/hdmap/renderer/FluidStateRenderer.java:76-78 | a model is found iff its packed key is in the cache, and it is the cached one |
| FluidRenderer.FluidStateRenderer.PutCachedModel | DynmapCore/src/main/java/org/dynmap/hdmap/renderer/FluidStateRenderer.java:81-83 | the model is stored under the packed key and nothing else changes |
| FluidRenderer.FluidStateRenderer.InitializeRenderer | DynmapCore/src/main/java/org/dynmap/hdmap/renderer/FluidStateRenderer.java:32-46 | when the base initialisation accepts, flat models for heights 0..9 are cached; otherwise nothing changes |
| FluidRenderer.FluidStateRenderer.GetRenderPatchList | DynmapCore/src/main/java/org/dynmap/hdmap/renderer/FluidStateRenderer.java:157-227 | the same fluid above returns the cached full model; otherwise the cached model for the four corner heights, or a freshly built one that is then cached |
| FluidRenderer.BuildModel | DynmapCore/src/main/java/org/dynmap/hdmap/renderer/FluidStateRenderer.java:192-218 | the list built is bottom, the four sides and the top on the lowest edge |
| FluidRenderer.FullHeightAfterInit | DynmapCore/src/main/java/org/dynmap/hdmap/renderer/FluidStateRenderer.java:37-41 | after initialisation the full (9,9,9,9) and empty (0,0,0,0) flat models are cached |
| FluidRenderer.PutThenGet | DynmapCore/src/main/java/org/dynmap/hdmap/renderer/FluidStateRenderer.java:76-83 | a put followed by a get with the same four heights returns that model, and any other heights see what they saw before |
| BlockModels.MetaValues | DynmapCore/src/main/java/org/dynmap/modsupport/impl/BlockModelImpl.java:113-117 | the metadata values a mask selects are exactly its members in 0..15 |
| BlockModels.IdsPart | DynmapCore/src/main/java/org/dynmap/modsupport/impl/BlockModelImpl.java:101-103 | the id part indexes `ids` by each id's value, so it throws ArrayIndexOutOfBoundsException exactly when some id is not a valid position |
| BlockModels.IDsAndMeta | DynmapCore/src/main/java/org/dynmap/modsupport/impl/BlockModelImpl.java:95-121 | null iff there are no ids and no names; it throws exactly when the id part does |
| BlockModels.IdsByValueAlwaysFail | DynmapCore/src/main/java/org/dynmap/modsupport/impl/BlockModelImpl.java:101-103 | since every stored id is positive and distinct, at least one exceeds the last position: any model with ids throws |
| BlockModels.IDsAndMetaIntended | DynmapCore/src/main/java/org/dynmap/modsupport/impl/BlockModelImpl.java:95-121 | the intended line: null iff there are no ids and no names, else every id and name entry joined by ',' followed by the metadata part |
| BlockModels.IntendedFieldsRecoverEntries | DynmapCore/src/main/java/org/dynmap/modsupport/impl/BlockModelImpl.java:101-107 | in the intended line, splitting at ',' gives back exactly the id and name entries (names without ',') |
| BlockModels.BlockModelImpl.WithID | DynmapCore/src/main/java/org/dynmap/modsupport/impl/BlockModelImpl.java:14-17 | a model built from an id holds that id when it is positive, no names, and the all-values mask |
| BlockModels.BlockModelImpl.WithName | DynmapCore/src/main/java/org/dynmap/modsupport/impl/BlockModelImpl.java:18-21 | a model built from a name holds just that name and the all-values mask |
| BlockModels.BlockModelImpl.AddBlockID | DynmapCore/src/main/java/org/dynmap/modsupport/impl/BlockModelImpl.java:28-35 | a positive id not yet present is appended at the end; anything else changes nothing |
| BlockModels.BlockModelImpl.AddBlockName | DynmapCore/src/main/java/org/dynmap/modsupport/impl/BlockModelImpl.java:42-47 | a name not yet present is appended at the end; a present one changes nothing |
| BlockModels.BlockModelImpl.SetMetaValue | DynmapCore/src/main/java/org/dynmap/modsupport/impl/BlockModelImpl.java:72-82 | a negative value selects all values; 0..15 clears the all-values mask first if set and then adds the value; 16 and above change nothing |
| BlockModels.BlockModelImpl.GetIDsAndMeta | DynmapCore/src/main/java/org/dynmap/modsupport/impl/BlockModelImpl.java:95-121 | returns the line as written (or its exception) for the current ids, names and mask |
| BlockModels.AppendMetaEntries | DynmapCore/src/main/java/org/dynmap/modsupport/impl/BlockModelImpl.java:113-117 | the loop appends one ",data=i" per set bit, i ascending from 0 to 15 |
| BlockModels.MetaEntriesStep | DynmapCore/src/main/java/org/dynmap/modsupport/impl/BlockModelImpl.java:113-117 | bit i contributes ",data=i" when set and nothing otherwise |
| BlockModels.SetMetaValueAdds | DynmapCore/src/main/java/org/dynmap/modsupport/impl/BlockModelImpl.java:76-81 | after setting value d the selected values are the previous ones (none if it was all) plus d |
| BlockModels.SingleMetaEntry | DynmapCore/src/main/java/org/dynmap/modsupport/impl/BlockModelImpl.java:113-117 | a mask with a single value d ends the line with exactly ",data=d" |
| BlockModels.BlockModelImpl.GetIDsAndMetaIntended | DynmapCore/src/main/java/org/dynmap/modsupport/impl/BlockModelImpl.java:95-121 | the corrected line on the object: null iff there are no ids and no names, else the ids by value and the names, comma-separated, with the metadata suffix |
| TileStorage.NumberTextPlain | DynmapCore/src/main/java/org/dynmap/storage/SQLiteMapStorageBase.java:49-52 | printed coordinates contain no '_', '.' or '/', so they cannot be confused with separators |
| TileStorage.TileDir | DynmapCore/src/main/java/org/dynmap/storage/SQLiteMapStorageBase.java:49-52 | the `(x >> 5)_(y >> 5)` directory name contains no '/' |
| TileStorage.TileFile | DynmapCore/src/main/java/org/dynmap/storage/SQLiteMapStorageBase.java:48-53 | the file name fails with StringIndexOutOfBoundsException exactly when the zoom exceeds the 16-character z-run |
| TileStorage.TileUri | DynmapCore/src/main/java/org/dynmap/storage/SQLiteMapStorageBase.java:48-53 | the URI fails exactly when the zoom exceeds 16 |
| TileStorage.NewTile | DynmapCore/src/main/java/org/dynmap/storage/SQLiteMapStorageBase.java:42-54 | creating a tile keeps the map, variant, x, y and zoom, and fails exactly when the zoom exceeds 16 |
| TileStorage.FindSuffix | DynmapCore/src/main/java/org/dynmap/storage/SQLiteMapStorageBase.java:512-517 | finds a variant of one map whose prefix plus suffix is the map name, or reports that there is none |
| TileStorage.FindVariant | DynmapCore/src/main/java/org/dynmap/storage/SQLiteMapStorageBase.java:509-518 | finds a (map, variant) pair whose name is the URI's first segment, or reports that no pair matches |
| TileStorage.ParseCoords | DynmapCore/src/main/java/org/dynmap/storage/SQLiteMapStorageBase.java:523-537 | fewer than three `_`/`.` tokens give null; with three or more, an empty first token throws on `charAt(0)`; otherwise the result is null iff `parseInt` rejects the x or the y token (the second and third when the first starts with 'z'), and a parsed zoom is the length of that z-token, 0 without one, with 32-bit coordinates |
| TileStorage.ParseTileUri | DynmapCore/src/main/java/org/dynmap/storage/SQLiteMapStorageBase.java:502-538 | fewer than two segments or an unknown map name give null; for a known map the last segment decides: its coordinate parse's exception or null is passed on, a zoom past 16 throws, and a parsed tile belongs to the named map and variant with exactly the zoom, x and y read from the file name |
| TileStorage.CoordTokens | DynmapCore/src/main/java/org/dynmap/storage/SQLiteMapStorageBase.java:49-52 | "x_y.ext" splits into x, y and ext |
| TileStorage.FileTokens | DynmapCore/src/main/java/org/dynmap/storage/SQLiteMapStorageBase.java:48-53 | the file name splits into the z-run (when zoomed), x, y and the extension |
| TileStorage.CoordsRoundTrip | DynmapCore/src/main/java/org/dynmap/storage/SQLiteMapStorageBase.java:523-537 | parsing a written file name gives back its zoom, x and y |
| TileStorage.UriSegments | DynmapCore/src/main/java/org/dynmap/storage/SQLiteMapStorageBase.java:48-53 | a URI splits at '/' into the map name, the directory and the file name |
| TileStorage.ParseTileUriRoundTrip | DynmapCore/src/main/java/org/dynmap/storage/SQLiteMapStorageBase.java:502-538 | parsing the URI of a tile gives the tile with the same coordinates for the first matching map and variant |
| TileStorage.ParseTileUriOfTile | DynmapCore/src/main/java/org/dynmap/storage/SQLiteMapStorageBase.java:502-538 | when the tile's own map and variant are the first match, parsing its URI gives back the same tile |
| TileStorage.StringHash | DynmapCore/src/main/java/org/dynmap/storage/SQLiteMapStorageBase.java:263-265 | `String.hashCode` is a 32-bit value; it hashes the string's characters, which are Java's UTF-16 code units only for text in the basic plane |
| TileStorage.TileHashCode | DynmapCore/src/main/java/org/dynmap/storage/SQLiteMapStorageBase.java:263-265 | a tile's hash is a 32-bit value |
| TileStorage.TileEqualsIffSameAddress | DynmapCore/src/main/java/org/dynmap/storage/SQLiteMapStorageBase.java:254-265 | two tiles are equal (same URI) iff map name, extension, x, y and zoom agree, and equal tiles have equal hashes |
| TileStorage.FloorTo | DynmapCore/src/main/java/org/dynmap/storage/SQLiteMapStorageBase.java:237-251 | the largest multiple of m not above a |
| TileStorage.CeilTo | DynmapCore/src/main/java/org/dynmap/storage/SQLiteMapStorageBase.java:237-251 | the smallest multiple of m not below a |
| TileStorage.ZoomOutTile | DynmapCore/src/main/java/org/dynmap/storage/SQLiteMapStorageBase.java:237-251 | the zoom-out tile keeps map and variant and has zoom + 1; it fails only by a zero divisor (zoom 31) or a zoom past the z-run |
| TileStorage.RoundToCellFloors | DynmapCore/src/main/java/org/dynmap/storage/SQLiteMapStorageBase.java:240-243 | on a multiple of the step, the truncating-remainder rounding is rounding down to a multiple of twice the step |
| TileStorage.RoundToCellCeils | DynmapCore/src/main/java/org/dynmap/storage/SQLiteMapStorageBase.java:244-249 | negating, rounding and negating back rounds y up to a multiple of twice the step, modulo 2^32 |
| TileStorage.ZoomOutCells | DynmapCore/src/main/java/org/dynmap/storage/SQLiteMapStorageBase.java:237-251 | below zoom 30 the zoom-out succeeds iff the zoom is below 16, with x and y rounded as written |
| TileStorage.ZoomOutRoundsBy | DynmapCore/src/main/java/org/dynmap/storage/SQLiteMapStorageBase.java:237-251 | for coordinates aligned to the tile's step, the parent has x rounded down and y rounded up to twice the step |
| TileStorage.ZoomOutRounds | DynmapCore/src/main/java/org/dynmap/storage/SQLiteMapStorageBase.java:237-251 | for every zoom below 16 and aligned coordinates, the parent is at zoom + 1 with x floored and y ceiled to twice the step |
| TileStorage.ZoomOutTopEdgeWraps | DynmapCore/src/main/java/org/dynmap/storage/SQLiteMapStorageBase.java:244-249 | y = Integer.MAX_VALUE at zoom 0 wraps to Integer.MIN_VALUE in the parent |
| SQLiteStorage.TrimZeros | DynmapCore/src/main/java/org/dynmap/storage/SQLiteMapStorageBase.java:126-130 | the trimmed image is a prefix of the BLOB, everything cut off is zero, and it does not end in zero |
| SQLiteStorage.TrimmedLengthUnique | DynmapCore/src/main/java/org/dynmap/storage/SQLiteMapStorageBase.java:126-130 | the length the trimming loop stops at is exactly the trimmed prefix's |
| SQLiteStorage.TileImageOf | DynmapCore/src/main/java/org/dynmap/storage/SQLiteMapStorageBase.java:124-131 | a positive stored length is used as it is; otherwise the length drops trailing zero bytes |
| SQLiteStorage.ImageLength | DynmapCore/src/main/java/org/dynmap/storage/SQLiteMapStorageBase.java:125-130 | the loop yields the stored length when positive, else the trimmed length |
| SQLiteStorage.ReadTileImage | DynmapCore/src/main/java/org/dynmap/storage/SQLiteMapStorageBase.java:124-131 | `read` wraps the BLOB with the length computed above |
| SQLiteStorage.MarkerImage | DynmapCore/src/main/java/org/dynmap/storage/SQLiteMapStorageBase.java:799-806 | `getMarkerImage` wraps the whole BLOB, ignoring the length it computed |
| SQLiteStorage.MarkerKeepsPadding | DynmapCore/src/main/java/org/dynmap/storage/SQLiteMapStorageBase.java:799-806 | a marker image padded with zero bytes keeps its padding, unlike a tile image |
| PostgresStorage.WriteOutcome | DynmapCore/src/main/java/org/dynmap/storage/postgresql/PostgreSQLMapStorage.java:155-215 | refused, changing nothing, without a map key or for a delete of a missing row; otherwise a delete removes the row, and a write stores the hash and image under the tile's key; other rows are untouched |
| PostgresStorage.DeleteTwiceRefused | DynmapCore/src/main/java/org/dynmap/storage/postgresql/PostgreSQLMapStorage.java:156-159 | a second delete of the same tile is refused and changes nothing |
| PostgresStorage.WriteIsLocal | DynmapCore/src/main/java/org/dynmap/storage/postgresql/PostgreSQLMapStorage.java:155-215 | a write never changes another tile's row |
| PostgresStorage.TileTable.constructor | DynmapCore/src/main/java/org/dynmap/storage/postgresql/PostgreSQLMapStorage.java:155-215 | an empty tiles table, and no zoom-out update signalled yet |
| PostgresStorage.TileTable.Exists | DynmapCore/src/main/java/org/dynmap/storage/postgresql/PostgreSQLMapStorage.java:75-96 | true iff there is a map key and a row under the tile's key |
| PostgresStorage.TileTable.Write | DynmapCore/src/main/java/org/dynmap/storage/postgresql/PostgreSQLMapStorage.java:155-207 | refused iff there is no map key or it is a delete of a missing row; the table becomes the write outcome; a successful write of a zoom-0 tile, and only that, is handed to `enqueueZoomOutUpdate` |
| TileBuffers.WithFullAlpha | DynmapCore/src/main/java/org/dynmap/hdmap/TexturePack.java:2972 | `c \| 0xFF000000` keeps the colour bits and makes the pixel opaque |
| TileBuffers.WithFullAlphaOfSolid | DynmapCore/src/main/java/org/dynmap/hdmap/TexturePack.java:2972 | an already opaque pixel is unchanged by setting the alpha byte |
| TileBuffers.PureAlpha | DynmapCore/src/main/java/org/dynmap/hdmap/TexturePack.java:2969-2973 | one pixel of `makeAlphaPure`: colour bits kept, transparency kept, and a fully transparent pixel unchanged |
| TileBuffers.PureAlphaIsPure | DynmapCore/src/main/java/org/dynmap/hdmap/TexturePack.java:2969-2973 | afterwards every alpha is 0x00 or 0xFF, and a second pass changes nothing |
| TileBuffers.MakeAlphaPure | DynmapCore/src/main/java/org/dynmap/hdmap/TexturePack.java:2969-2973 | every pixel of the array is replaced in place by its purified value |
| TileBuffers.Resized | DynmapCore/src/main/java/org/dynmap/hdmap/TexturePack.java:508 | `Arrays.copyOf` keeps the first entries and pads with nulls to the new length |
| TileBuffers.StoreAt | DynmapCore/src/main/java/org/dynmap/hdmap/TexturePack.java:510 | the store succeeds iff the index is inside the table, and then changes exactly that entry |
| TileBuffers.SetTileAsWritten | DynmapCore/src/main/java/org/dynmap/hdmap/TexturePack.java:506-511 | as written, the store succeeds iff idx is non-negative and inside the table or inside the grown length `3*idx/2` (in `int` arithmetic); a negative grown length throws NegativeArraySizeException, any other failure ArrayIndexOutOfBoundsException; entry idx then holds the buffer, and every other entry is the old one or null (the as-written half of the fourth Findings row) |
| TileBuffers.SetTileAsWrittenFailsAtZero | DynmapCore/src/main/java/org/dynmap/hdmap/TexturePack.java:506-511 | on an empty table `setTileARGB(0, buf)` grows the table to length 0 and the store throws |
| TileBuffers.Growth | DynmapCore/src/main/java/org/dynmap/hdmap/TexturePack.java:508 | the corrected growth leaves room for every index up to 715827882, and equals `3*idx/2` from index 2 on |
| TileBuffers.SetTileAgrees | DynmapCore/src/main/java/org/dynmap/hdmap/TexturePack.java:506-511 | from index 2 on, or when no growth is needed, the corrected store is the written one |
| TileBuffers.SetThenGet | DynmapCore/src/main/java/org/dynmap/hdmap/TexturePack.java:506-533 | storing at any index up to where `3*idx` still fits an int succeeds, `getTileARGB(idx)` then returns the buffer, and every other tile reads as before |
| TileBuffers.GetTileReads | DynmapCore/src/main/java/org/dynmap/hdmap/TexturePack.java:524-533 | a read succeeds for any non-negative index, returns the entry or the blank tile, and changes no tile's value (a null entry is replaced by the blank tile) |
| TileBuffers.TileTable.constructor | DynmapCore/src/main/java/org/dynmap/hdmap/TexturePack.java:506-533 | a table of unset entries and a blank tile of scale*scale zero pixels |
| TileBuffers.TileTable.Count | DynmapCore/src/main/java/org/dynmap/hdmap/TexturePack.java:516-518 | the number of entries |
| TileBuffers.TileTable.SetTileARGB | DynmapCore/src/main/java/org/dynmap/hdmap/TexturePack.java:506-511 | the table and outcome are those of the corrected store |
| TileBuffers.TileTable.GetTileARGB | DynmapCore/src/main/java/org/dynmap/hdmap/TexturePack.java:524-533 | the table and result are those of the read |
| TileBuffers.RowStartAtLeast | DynmapCore/src/main/java/org/dynmap/hdmap/TexturePack.java:811-812 | with a non-negative stride, each later row starts at least one stride on |
| TileBuffers.RowOp | DynmapCore/src/main/java/org/dynmap/hdmap/TexturePack.java:812 | one row copy leaves the buffer length unchanged |
| TileBuffers.Rows | DynmapCore/src/main/java/org/dynmap/hdmap/TexturePack.java:810-837 | the buffer after a copy or combine has the same length |
| TileBuffers.RowsKeepBefore | DynmapCore/src/main/java/org/dynmap/hdmap/TexturePack.java:810-837 | cells before the first target row are untouched |
| TileBuffers.RowsCell | DynmapCore/src/main/java/org/dynmap/hdmap/TexturePack.java:810-837 | each target cell of the rectangle holds the matching source pixel, or, when combining, keeps its value unless that pixel is opaque |
| TileBuffers.RowsKeepGap | DynmapCore/src/main/java/org/dynmap/hdmap/TexturePack.java:810-837 | cells of a target row outside the copied width are untouched |
| TileBuffers.RowsKeepAfter | DynmapCore/src/main/java/org/dynmap/hdmap/TexturePack.java:810-837 | cells after the last target row are untouched |
| TileBuffers.CombineOfSolidIsCopy | DynmapCore/src/main/java/org/dynmap/hdmap/TexturePack.java:810-837 | combining an all-opaque source is the same as copying it |
| TileBuffers.CopyIdempotent | DynmapCore/src/main/java/org/dynmap/hdmap/TexturePack.java:810-814 | copying the same rectangle twice gives the same buffer as once |
| TileBuffers.CopiedRectangle | DynmapCore/src/main/java/org/dynmap/hdmap/TexturePack.java:810-814 | after `copySubimageFromImage`, the target cell (tx+c, ty+r) holds the source pixel (fx+c, fy+r) |
| TileBuffers.CopyRows | DynmapCore/src/main/java/org/dynmap/hdmap/TexturePack.java:810-837 | for any rectangle, the row loop leaves the buffer that the copy (or overlay) describes, row by row; when an index lies past either buffer it stops at that row with ArrayIndexOutOfBoundsException, keeping what was already written |
| TileBuffers.CopyRow | DynmapCore/src/main/java/org/dynmap/hdmap/TexturePack.java:810-835 | one row step: `System.arraycopy` writes the whole row or, when it does not fit, throws and writes nothing; the overlay writes cell by cell until a bad index throws |
| TileBuffers.CopyRowOutcome | DynmapCore/src/main/java/org/dynmap/hdmap/TexturePack.java:811-813 | a row copy never changes the buffer length |
| TileBuffers.CombineCells | DynmapCore/src/main/java/org/dynmap/hdmap/TexturePack.java:823-832 | the overlay's inner loop never changes the buffer length |
| TileBuffers.RowsOutcome | DynmapCore/src/main/java/org/dynmap/hdmap/TexturePack.java:810-837 | the buffer after a copy that may throw keeps its length |
| TileBuffers.RowsOutcomeFits | DynmapCore/src/main/java/org/dynmap/hdmap/TexturePack.java:810-837 | when every row fits both buffers, the copy throws nothing and leaves exactly the rectangle copy `Rows` |
| TileBuffers.CombineRowFits | DynmapCore/src/main/java/org/dynmap/hdmap/TexturePack.java:823-832 | on a row that fits both buffers, the overlay's loop writes exactly the opaque pixels of the row and does not throw |
| TileBuffers.CopyStopsAtFirstBadRow | DynmapCore/src/main/java/org/dynmap/hdmap/TexturePack.java:810-814 | when the first k rows fit and row k does not, the copy throws with exactly the first k rows written |
| TileBuffers.CombineThrowsIff | DynmapCore/src/main/java/org/dynmap/hdmap/TexturePack.java:823-832 | the overlay's row throws iff some cell reads past the image, or would write an opaque pixel past the buffer |
| DerivedTiles.BlockSource | DynmapCore/src/main/java/org/dynmap/hdmap/TexturePack.java:1212-1227 | every source cell a transposed block reads lies inside the tile |
| DerivedTiles.TransposedCell | DynmapCore/src/main/java/org/dynmap/hdmap/TexturePack.java:1212-1216 | cell (i, j) of the source block lands at row j, column i of the target block |
| DerivedTiles.TransposeBlock | DynmapCore/src/main/java/org/dynmap/hdmap/TexturePack.java:1212-1216 | the nested loops write exactly the transposed block |
| DerivedTiles.Prefilled | DynmapCore/src/main/java/org/dynmap/hdmap/TexturePack.java:1210-1221 | a partial `System.arraycopy` into a fresh buffer keeps the tile size |
| DerivedTiles.PistonBlocksFit | DynmapCore/src/main/java/org/dynmap/hdmap/TexturePack.java:1207-1227 | both piston blocks and the copied ranges fit the tile for every scale |
| DerivedTiles.PistonExtensionCell | DynmapCore/src/main/java/org/dynmap/hdmap/TexturePack.java:1212-1216 | the extension tile holds the top quarter of the piston side turned onto column 3n/8 + i, row n/4 + j |
| DerivedTiles.PistonExtensionElsewhere | DynmapCore/src/main/java/org/dynmap/hdmap/TexturePack.java:1207-1216 | outside that block the extension tile is the top quarter copied as it is, and 0 below it |
| DerivedTiles.PistonSideExtendedCell | DynmapCore/src/main/java/org/dynmap/hdmap/TexturePack.java:1222-1227 | the extended piston side holds the right quarter of the top rows turned onto its top rows |
| DerivedTiles.BuildPistonExtension | DynmapCore/src/main/java/org/dynmap/hdmap/TexturePack.java:1207-1216 | builds exactly the extension tile |
| DerivedTiles.BuildPistonSideExtended | DynmapCore/src/main/java/org/dynmap/hdmap/TexturePack.java:1218-1227 | builds exactly the extended piston side |
| DerivedTiles.PaneCrossedCell | DynmapCore/src/main/java/org/dynmap/hdmap/TexturePack.java:1229-1237 | inside the middle band (rows 7n/16 to 9n/16) a cell takes the transposed pixel, read from the buffer as already updated by earlier rows of the band; everything else is the pane top |
| DerivedTiles.BuildPaneCrossed | DynmapCore/src/main/java/org/dynmap/hdmap/TexturePack.java:1229-1237 | builds exactly the crossed pane top, in place |
| DerivedTiles.FrameWithEyeCentre | DynmapCore/src/main/java/org/dynmap/hdmap/TexturePack.java:1239-1248 | the centre square from n/4 to 3n/4 holds the eye overlay |
| DerivedTiles.BuildFrameWithEye | DynmapCore/src/main/java/org/dynmap/hdmap/TexturePack.java:1239-1248 | builds exactly the frame with the eye overlay |
| DerivedTiles.BuildWhite | DynmapCore/src/main/java/org/dynmap/hdmap/TexturePack.java:1250-1252 | every pixel of the white tile is opaque white |
| CustomTiles.PadTo | DynmapCore/src/main/java/org/dynmap/hdmap/TexturePack.java:3055-3057 | the list grows with null entries up to the requested size, keeping every existing entry |
| CustomTiles.CustomRecs | DynmapCore/src/main/java/org/dynmap/hdmap/TexturePack.java:3043-3079 | the loop over the arguments leaves exactly the record list the argument-by-argument fold describes |
| CustomTiles.CustomRecsFromAt | DynmapCore/src/main/java/org/dynmap/hdmap/TexturePack.java:3044-3077 | processing the argument list is processing its i-th argument and then the rest |
| CustomTiles.ParsePairOfText | DynmapCore/src/main/java/org/dynmap/hdmap/TexturePack.java:3061-3063 | an `x:y` pair of 32-bit integers written out parses back to the same pair, and contains no '/' or '=' |
| CustomTiles.SplitSlashes | DynmapCore/src/main/java/org/dynmap/hdmap/TexturePack.java:3060 | splitting slash-joined non-empty pieces on '/' gives the pieces back |
| CustomTiles.ParseCoordsOfText | DynmapCore/src/main/java/org/dynmap/hdmap/TexturePack.java:3060-3066 | `srcx:srcy/width:height` parses back to the record with target 0,0 |
| CustomTiles.ParseCoordsOfTextWithTarget | DynmapCore/src/main/java/org/dynmap/hdmap/TexturePack.java:3060-3071 | `srcx:srcy/width:height/tx:ty` parses back to the full record |
| CustomTiles.ParseCoordsOfPieces | DynmapCore/src/main/java/org/dynmap/hdmap/TexturePack.java:3060-3071 | three slash-separated pieces whose pairs parse give the record made of those pairs |
| CustomTiles.TileArgOfText | DynmapCore/src/main/java/org/dynmap/hdmap/TexturePack.java:3045-3050 | `tileN=coords` is recognised as tile N with those coordinates |
| CustomTiles.CustomArgStepStores | DynmapCore/src/main/java/org/dynmap/hdmap/TexturePack.java:3055-3072 | a tile argument with good coordinates stores the record at its id, pads the list with nulls up to it, and leaves every other entry as it was |
| CustomTiles.CustomArgStores | DynmapCore/src/main/java/org/dynmap/hdmap/TexturePack.java:3045-3072 | the same, for the text `tileN=srcx:srcy/width:height/tx:ty` of any 32-bit record |
| CustomTiles.CustomArgIgnored | DynmapCore/src/main/java/org/dynmap/hdmap/TexturePack.java:3045-3046 | an argument that does not split into exactly two parts on '=' leaves the list unchanged |
| CustomTiles.NumberChars | DynmapCore/src/main/java/org/dynmap/hdmap/TexturePack.java:3062 | the decimal text of an integer holds only digits and '-' |
| TileRegistry.SlotCount | DynmapCore/src/main/java/org/dynmap/hdmap/TexturePack.java:3022-3094 | every format except GRID, TILESET and CUSTOM has at least one slot |
| TileRegistry.AppendPreserves | DynmapCore/src/main/java/org/dynmap/hdmap/TexturePack.java:3095-3098 | appending a file whose slots are all -1 under a new name at the next position keeps the registry consistent: names index exactly the files, each slot holds -1 or an id already handed out, and no dynamic id is held twice |
| TileRegistry.AppendNames | DynmapCore/src/main/java/org/dynmap/hdmap/TexturePack.java:3096-3098 | appending under a new name keeps the name index exact |
| TileRegistry.AppendFiles | DynmapCore/src/main/java/org/dynmap/hdmap/TexturePack.java:3095-3097 | appending a well-formed file keeps every slot table well-formed |
| TileRegistry.AppendUnique | DynmapCore/src/main/java/org/dynmap/hdmap/TexturePack.java:3095-3097 | appending a file holding no dynamic id keeps dynamic ids unique |
| TileRegistry.AddFilePreserves | DynmapCore/src/main/java/org/dynmap/hdmap/TexturePack.java:3007-3100 | registering a file keeps the invariant, the name then leads to the returned position, no id is handed out, earlier files and names stay as they were |
| TileRegistry.AddFileNew | DynmapCore/src/main/java/org/dynmap/hdmap/TexturePack.java:3013-3099 | a new name always registers, at the next position, as the only new file, with every slot unassigned and used set only for BIOME files |
| TileRegistry.AddFileAgain | DynmapCore/src/main/java/org/dynmap/hdmap/TexturePack.java:3009-3012 | asking again for a registered name returns the same position and changes nothing, whatever dimensions, format and arguments are given |
| TileRegistry.FindTilePreserves | DynmapCore/src/main/java/org/dynmap/hdmap/TexturePack.java:2985-2995 | a lookup changes only used flags and returns a non-negative id exactly when the name is registered, the number is a slot of its table and that slot is assigned; any id found was already handed out |
| TileRegistry.OnlyUsedPreserves | DynmapCore/src/main/java/org/dynmap/hdmap/TexturePack.java:2990 | changing only used flags keeps the invariant |
| TileRegistry.OnlyUsedNames | DynmapCore/src/main/java/org/dynmap/hdmap/TexturePack.java:2990 | changing only used flags keeps the name index |
| TileRegistry.OnlyUsedFiles | DynmapCore/src/main/java/org/dynmap/hdmap/TexturePack.java:2990 | changing only used flags keeps the slot tables |
| TileRegistry.OnlyUsedUnique | DynmapCore/src/main/java/org/dynmap/hdmap/TexturePack.java:2990 | changing only used flags keeps dynamic ids unique |
| TileRegistry.MarkUsedPreserves | DynmapCore/src/main/java/org/dynmap/hdmap/TexturePack.java:2990 | marking a file used keeps the invariant, sets its flag and changes nothing else |
| TileRegistry.WithSlotPreserves | DynmapCore/src/main/java/org/dynmap/hdmap/TexturePack.java:3115-3119 | setting a slot to a static id, or to an id no slot holds yet, with the counter not going back, keeps the invariant |
| TileRegistry.WithSlotNames | DynmapCore/src/main/java/org/dynmap/hdmap/TexturePack.java:3115-3119 | setting a slot keeps the name index |
| TileRegistry.WithSlotFiles | DynmapCore/src/main/java/org/dynmap/hdmap/TexturePack.java:3115-3119 | setting a slot to an id below the counter keeps the slot tables well-formed |
| TileRegistry.WithSlotUnique | DynmapCore/src/main/java/org/dynmap/hdmap/TexturePack.java:3115-3119 | setting a slot to a static or a never-used id keeps dynamic ids unique |
| TileRegistry.AssignTileSucceeds | DynmapCore/src/main/java/org/dynmap/hdmap/TexturePack.java:3107-3114 | handing out an id succeeds exactly for an existing slot of an existing file; otherwise it throws |
| TileRegistry.AssignTileFresh | DynmapCore/src/main/java/org/dynmap/hdmap/TexturePack.java:3115-3118 | an unassigned slot gets the counter's value, a dynamic id no slot held before, and the counter moves on by one; every other slot is unchanged |
| TileRegistry.AssignTileKept | DynmapCore/src/main/java/org/dynmap/hdmap/TexturePack.java:3115-3120 | an assigned slot returns its id and neither the counter nor any slot changes |
| TileRegistry.AssignTilePreserves | DynmapCore/src/main/java/org/dynmap/hdmap/TexturePack.java:3107-3120 | handing out an id keeps the invariant, the slot then holds the returned id, the file is marked used, names and file names are unchanged |
| TileRegistry.AssignTileIdempotent | DynmapCore/src/main/java/org/dynmap/hdmap/TexturePack.java:3107-3120 | asking for the same slot twice returns the same id, and the second call changes nothing |
| TileRegistry.AssignThenFind | DynmapCore/src/main/java/org/dynmap/hdmap/TexturePack.java:2985-2995 | after an id is handed out for a named file's tile, looking that tile up finds the same id |
| TileRegistry.TextureValueOfNumber | DynmapCore/src/main/java/org/dynmap/hdmap/TexturePack.java:1767-1769 | a plain number reads back as itself with the given source file |
| TileRegistry.TextureValueAttribute | DynmapCore/src/main/java/org/dynmap/hdmap/TexturePack.java:1757-1766 | `t:attr` reads as `t` against the file the attribute names, and throws for an attribute the definition does not know |
| TileRegistry.TextureIndexOfNumber | DynmapCore/src/main/java/org/dynmap/hdmap/TexturePack.java:1770-1781 | a plain number n is Java's n%1000, mapped through the source file when both are not negative, plus its modifier n/1000 moved to x1000000 |
| TileRegistry.TextureIndexAttribute | DynmapCore/src/main/java/org/dynmap/hdmap/TexturePack.java:1759-1766 | `n:attr` is `n` read against the file the attribute names |
| TileRegistry.TextureIndexUnknownAttribute | DynmapCore/src/main/java/org/dynmap/hdmap/TexturePack.java:1763-1765 | an unknown attribute throws NumberFormatException |
| TileRegistry.TextureIndexNoDefault | DynmapCore/src/main/java/org/dynmap/hdmap/TexturePack.java:1778-1780 | a value without an attribute, for a definition with no default image, always throws |
| TileRegistry.TextureIndexPreserves | DynmapCore/src/main/java/org/dynmap/hdmap/TexturePack.java:1756-1782 | reading a texture value keeps the registry consistent |
| TileRegistry.TextureCodeRoundTrip | DynmapCore/src/main/java/org/dynmap/hdmap/TexturePack.java:2667-2668 | for values up to 2147999 the internal id fits an int and splits back, with `/` and `%` by 1000000, into the file value's modifier and tile |
| TileRegistry.FileNameInjective | DynmapCore/src/main/java/org/dynmap/hdmap/TexturePack.java:353-365 | different block names give different image file names |
| TileRegistry.FileNamesDiffer | DynmapCore/src/main/java/org/dynmap/hdmap/TexturePack.java:353-365 | a resource-pack file name is never a texture-pack file name |
| TileRegistry.AddGridOne | DynmapCore/src/main/java/org/dynmap/hdmap/TexturePack.java:381-393 | registering a 1x1 grid always succeeds, keeps the invariant and every file at one slot, hands out no id, and keeps earlier files and names |
| TileRegistry.PinPreserves | DynmapCore/src/main/java/org/dynmap/hdmap/TexturePack.java:381-386 | pinning a vanilla image keeps the invariant, hands out no dynamic id, and its tile then looks up as the pinned static id |
| TileRegistry.PinKeepsOthers | DynmapCore/src/main/java/org/dynmap/hdmap/TexturePack.java:381-386 | pinning one image leaves the lookup of every other registered file alone |
| TileRegistry.PinFrom | DynmapCore/src/main/java/org/dynmap/hdmap/TexturePack.java:378-388 | pinning a table's images keeps the invariant and hands out no dynamic id |
| TileRegistry.PinFromKeeps | DynmapCore/src/main/java/org/dynmap/hdmap/TexturePack.java:378-388 | pinning other names leaves a file's lookup alone |
| TileRegistry.PinFromLast | DynmapCore/src/main/java/org/dynmap/hdmap/TexturePack.java:378-388 | the last position of a name in the table decides the static id that image is pinned to |
| TileRegistry.ResetState | DynmapCore/src/main/java/org/dynmap/hdmap/TexturePack.java:368-401 | after a reset the registry is consistent and the counter is back at the first dynamic id |
| TileRegistry.ResetPinsResourcePack | DynmapCore/src/main/java/org/dynmap/hdmap/TexturePack.java:378-400 | after a reset a resource-pack image is pinned to the last position of its name in its table; the texture-pack pass does not touch it |
| TileRegistry.ResetPinsTexturePack | DynmapCore/src/main/java/org/dynmap/hdmap/TexturePack.java:390-400 | after a reset a texture-pack image is pinned to the last position of its name in its table |
| TileRegistry.AddonFiles.constructor | DynmapCore/src/main/java/org/dynmap/hdmap/TexturePack.java:331-351 | the registry starts empty, with no loaded mods and dynamic ids starting after the static ones |
| TileRegistry.AddonFiles.FindDynamicTile | DynmapCore/src/main/java/org/dynmap/hdmap/TexturePack.java:2985-2995 | the lookup on the object gives the lookup of the value model and keeps the object valid |
| TileRegistry.AddonFiles.FindOrAddDynamicTileFile | DynmapCore/src/main/java/org/dynmap/hdmap/TexturePack.java:3007-3100 | registering on the object gives the value model's registration, exceptions leaving the state alone |
| TileRegistry.AddonFiles.FindOrAddDynamicTile | DynmapCore/src/main/java/org/dynmap/hdmap/TexturePack.java:3107-3121 | handing out an id on the object gives the value model's result, exceptions leaving the state alone |
| TileRegistry.AddonFiles.ParseTextureIndex | DynmapCore/src/main/java/org/dynmap/hdmap/TexturePack.java:1756-1782 | reading a texture value on the object gives the value model's result, exceptions leaving the state alone |
| TileRegistry.AddonFiles.MapTextureIndex | DynmapCore/src/main/java/org/dynmap/hdmap/TexturePack.java:1770-1781 | mapping a number of a known file on the object gives the value model's result |
| TileRegistry.MappedTextureCodeRoundTrip | DynmapCore/src/main/java/org/dynmap/hdmap/TexturePack.java:1770-1782 | for a non-negative number n of a known file, mapping gives the assigned tile t plus 1000000 times the modifier n/1000, and dividing that by 1000000 gives back the modifier and the tile |
| TileRegistry.AddonFiles.ResetFiles | DynmapCore/src/main/java/org/dynmap/hdmap/TexturePack.java:368-401 | the object is emptied, the mod set cleared and the vanilla images pinned as the reset state describes |
| TileRegistry.AddonFiles.PinNames | DynmapCore/src/main/java/org/dynmap/hdmap/TexturePack.java:378-400 | one pinning loop leaves exactly the state the pinning fold describes |
| Texel.Ordinal | DynmapCore/src/main/java/org/dynmap/hdmap/TexturePack.java:2568 | a face's ordinal indexes the six-entry face table |
| Texel.FaceUV | DynmapCore/src/main/java/org/dynmap/hdmap/TexturePack.java:2611-2646 | for every face (and both Y-face variants) a sub-block inside the block maps to a point inside the tile, and the face's in-plane coordinates can be read back from (u, v), so no two sub-blocks of a face share a texel |
| Texel.TransformsAreBijections | DynmapCore/src/main/java/org/dynmap/hdmap/TexturePack.java:2736-2756 | ROT90 twice is ROT180, four times is the identity, ROT270 undoes ROT90, ROT180 and FLIPHORIZ undo themselves, and all of them keep the tile in the tile |
| Texel.LilyOrientation | DynmapCore/src/main/java/org/dynmap/hdmap/TexturePack.java:2816-2818 | the lily pad orientation computed with Java `int` and `long` arithmetic is one of 0..3 |
| Texel.TransformUV | DynmapCore/src/main/java/org/dynmap/hdmap/TexturePack.java:2735-2839 | an op makes the texel transparent exactly on the upper half for the two shift-down ops and on the bottom quarter for the inclined torch |
| Texel.TransformInTile | DynmapCore/src/main/java/org/dynmap/hdmap/TexturePack.java:2735-2839 | every op maps a point of the tile to a point of the tile, and the inclined torch lands in the middle two columns |
| Texel.ClearInside | DynmapCore/src/main/java/org/dynmap/hdmap/TexturePack.java:2671-2685 | clear-inside is transparent exactly when the last surface hit has the same base state, or both are water-filled and the ray is on a face; otherwise water becomes water-toned and the multiplier variant becomes MULTTONED |
| Texel.GrassSide | DynmapCore/src/main/java/org/dynmap/hdmap/TexturePack.java:2781-2813 | the grass-side op throws exactly when neither snow above nor better grass applies and the grass mask has no pixel at (u, v) |
| Texel.ToneMult | DynmapCore/src/main/java/org/dynmap/hdmap/TexturePack.java:2859-2958 | the alpha is 0xFF000000 unless the op is MULTTONED and its multiplier carries its own alpha, which is then used |
| Texel.BlendGate | DynmapCore/src/main/java/org/dynmap/hdmap/TexturePack.java:2847-2966 | a custom multiplier is blended exactly when it is not -1, a tone exactly when it is neither -1 nor 0, ops without a tone blend nothing, and what is blended is opaque unless MULTTONED brings its own alpha |
| Texel.ReadTexel | DynmapCore/src/main/java/org/dynmap/hdmap/TexturePack.java:2592-2967 | a negative texture id is transparent, and the only op that can throw is the grass side |
| Texel.TileIndex | DynmapCore/src/main/java/org/dynmap/hdmap/TexturePack.java:2654 | a point inside the tile has its flat index inside the tile |
| Texel.ReadInTile | DynmapCore/src/main/java/org/dynmap/hdmap/TexturePack.java:2652-2661 | a point inside a full-size tile is read where it is, on the plain path without clamping and on the op path without falling back to 0 |
| Texel.ClampedReadFinds | DynmapCore/src/main/java/org/dynmap/hdmap/TexturePack.java:2655-2660 | on the plain path a full-size tile always yields a texel, at the clamped point when (u, v) is outside |
| Texel.LayerWalk | DynmapCore/src/main/java/org/dynmap/hdmap/TexturePack.java:2579-2586 | the layer loop stops on an opaque colour or at a face whose link is negative, and an opaque first colour is kept as is |
| Texel.LayeredEndsOpaqueOrAtChainEnd | DynmapCore/src/main/java/org/dynmap/hdmap/TexturePack.java:2579-2586 | a layered lookup that ends transparent ended on a face with no further layer |
| Texel.ReadColorLayered | DynmapCore/src/main/java/org/dynmap/hdmap/TexturePack.java:2563-2587 | the loop over layer links yields exactly the lookup the layer walk describes |
| LookupTables.Scrubbed | DynmapCore/src/main/java/org/dynmap/hdmap/TexturePack.java:472-474 | scrubbing a value removes exactly the entries holding it and keeps every other entry as it was |
| LookupTables.ColorizingData.constructor | DynmapCore/src/main/java/org/dynmap/hdmap/TexturePack.java:455-456 | a new colouring table has no entries |
| LookupTables.ColorizingData.SetBlkStateValue | DynmapCore/src/main/java/org/dynmap/hdmap/TexturePack.java:458-471 | setting an image records it for the state, setting none removes the state; the lookup and the membership test then answer what was set |
| LookupTables.ColorizingData.ScrubValues | DynmapCore/src/main/java/org/dynmap/hdmap/TexturePack.java:472-474 | every state coloured by the value is removed and nothing else changes |
| LookupTables.ForgetUnloadedImage | DynmapCore/src/main/java/org/dynmap/hdmap/TexturePack.java:1380-1383 | after an image that did not load, no block state is left coloured by it; a loaded image changes nothing |
| LookupTables.TextureMap.constructor | DynmapCore/src/main/java/org/dynmap/hdmap/TexturePack.java:480-490 | a new texture map has no keys and no textures |
| LookupTables.TextureMap.AddTextureByKey | DynmapCore/src/main/java/org/dynmap/hdmap/TexturePack.java:492-497 | the texture is appended, its position is returned, and the key then leads to it |
| LookupTables.TextureMaps.constructor | DynmapCore/src/main/java/org/dynmap/hdmap/TexturePack.java:499 | there are no texture maps at first |
| LookupTables.TextureMaps.GetTextureIndexFromTextureMap | DynmapCore/src/main/java/org/dynmap/hdmap/TexturePack.java:584-594 | -1 exactly when the map or the key is missing, otherwise a position inside the map's texture list |
| LookupTables.TextureMaps.GetTextureMapLength | DynmapCore/src/main/java/org/dynmap/hdmap/TexturePack.java:600-603 | -1 exactly when there is no such map, otherwise the length of its texture list |
| LookupTables.TextureMaps.AddTextureByKey | DynmapCore/src/main/java/org/dynmap/hdmap/TexturePack.java:537-544 | the map is created when missing, the key then finds the new texture at the returned position, the list grows by exactly that texture, and every other map is untouched |
| LookupTables.NamesDistinct | DynmapCore/src/main/java/org/dynmap/hdmap/TexturePack.java:3558-3590 | while the two maps are inverse, no two tiles share a material name |
| LookupTables.CandidatesDiffer | DynmapCore/src/main/java/org/dynmap/hdmap/TexturePack.java:3587 | two different tries of the suffix loop are two different names |
| LookupTables.CandidateNew | DynmapCore/src/main/java/org/dynmap/hdmap/TexturePack.java:3587-3588 | the next name the loop tries has not been tried before |
| LookupTables.TriedBelow | DynmapCore/src/main/java/org/dynmap/hdmap/TexturePack.java:3577-3589 | every name tried is one of the first candidates |
| LookupTables.Settle | DynmapCore/src/main/java/org/dynmap/hdmap/TexturePack.java:3577-3589 | the suffix loop returns the first candidate not yet taken, or stops without a name only when a candidate already names this tile |
| LookupTables.NameElements | DynmapCore/src/main/java/org/dynmap/hdmap/TexturePack.java:3562-3570 | the name made from the path elements holds no '/' |
| LookupTables.DropExtension | DynmapCore/src/main/java/org/dynmap/hdmap/TexturePack.java:3572-3575 | dropping the extension leaves a prefix of the name |
| LookupTables.MaterialName | DynmapCore/src/main/java/org/dynmap/hdmap/TexturePack.java:3561-3575 | deriving a name throws exactly for a non-empty path of nothing but '/', and a derived name has no '/' and no blank |
| LookupTables.SplitEmptyIff | DynmapCore/src/main/java/org/dynmap/hdmap/TexturePack.java:3562 | `split` yields no pieces exactly for a non-empty string of delimiters only |
| LookupTables.PiecesAllEmpty | DynmapCore/src/main/java/org/dynmap/hdmap/TexturePack.java:3562 | every raw piece is empty exactly when the string is delimiters only |
| LookupTables.JoinAvoids | DynmapCore/src/main/java/org/dynmap/hdmap/TexturePack.java:3566-3569 | joining pieces free of a character with another separator keeps that character out |
| LookupTables.MaterialIds.constructor | DynmapCore/src/main/java/org/dynmap/hdmap/TexturePack.java:348-349 | both name maps start empty |
| LookupTables.MaterialIds.Claim | DynmapCore/src/main/java/org/dynmap/hdmap/TexturePack.java:3576-3589 | the suffix loop gives the tile the first free candidate and records it in both maps, which stay inverse |
| LookupTables.MaterialIds.SetMatIDForTileID | DynmapCore/src/main/java/org/dynmap/hdmap/TexturePack.java:3558-3590 | a tile that has a name keeps it; a bad path throws and changes nothing; otherwise the tile gets the first free name derived from its file and both maps stay inverse |
| LookupTables.MaterialIds.GetMatIDForTileID | DynmapCore/src/main/java/org/dynmap/hdmap/TexturePack.java:3592-3601 | a named tile's name is returned unchanged; an unnamed tile gets `txt<id>`, or the first free `txt<id>_N` when that is taken, and both maps stay inverse (the corrected half of the first Findings row) |
| LookupTables.GetMatIDAsWritten | DynmapCore/src/main/java/org/dynmap/hdmap/TexturePack.java:3592-3601 | as written: an unnamed tile is named `txt<id>` and that name re-pointed at it, whether or not another tile has it |
| LookupTables.MatIdCollision | DynmapCore/src/main/java/org/dynmap/hdmap/TexturePack.java:3592-3601 | with tile 9 named `txt5` from file `txt5.png`, the code as written gives tile 5 the same name and tile 9's name no longer leads back to it |
| LookupTables.MatIdSearchAvoidsCollision | DynmapCore/src/main/java/org/dynmap/hdmap/TexturePack.java:3577-3589 | the suffix search names tile 5 `txt5_2` in the same situation |
| LookupTables.Txt5FileName | DynmapCore/src/main/java/org/dynmap/hdmap/TexturePack.java:3561-3583 | a tile loaded from `txt5.png` is named `txt5` when that name is free |
| LookupTables.PlainFileName | DynmapCore/src/main/java/org/dynmap/hdmap/TexturePack.java:3561-3575 | a file name `stem.ext` with no '/', blank or '.' in its parts names the material `stem` |
| LookupTables.SplitOne | DynmapCore/src/main/java/org/dynmap/hdmap/TexturePack.java:3562-3564 | a path with no '/' is one element |
| LookupTables.ReplaceAbsent | DynmapCore/src/main/java/org/dynmap/hdmap/TexturePack.java:3571 | replacing a character that does not occur changes nothing |
| LookupTables.LastDot | DynmapCore/src/main/java/org/dynmap/hdmap/TexturePack.java:3572-3575 | the last extension is dropped from `stem.ext` |
| LookupTables.TrimStart | DynmapCore/src/main/java/org/dynmap/hdmap/TexturePack.java:3198 | trimming the front leaves a suffix that starts past the space |
| LookupTables.TrimEnd | DynmapCore/src/main/java/org/dynmap/hdmap/TexturePack.java:3198 | trimming the back leaves a prefix that ends past the space |
| LookupTables.Trim | DynmapCore/src/main/java/org/dynmap/hdmap/TexturePack.java:3198 | a trimmed string is no longer than the original and both its ends are past the space |
| LookupTables.TrimPlain | DynmapCore/src/main/java/org/dynmap/hdmap/TexturePack.java:3198 | a string whose ends are past the space is its own trim |
| LookupTables.NormalizeColorMapName | DynmapCore/src/main/java/org/dynmap/hdmap/TexturePack.java:3198-3200 | normalising throws exactly for an empty name or a lone '/', and otherwise yields a non-empty name that does not start with '~' |
| LookupTables.CustomColorFileName | DynmapCore/src/main/java/org/dynmap/hdmap/TexturePack.java:3194-3200 | a property without the `palette.block.` prefix is skipped, and one whose trimmed remainder is empty or a lone '/' throws |
| LookupTables.KeyedName | DynmapCore/src/main/java/org/dynmap/hdmap/TexturePack.java:3195-3200 | the key followed by a name needing no trimming yields that name, normalised |
| LookupTables.NormalizedNames | DynmapCore/src/main/java/org/dynmap/hdmap/TexturePack.java:3199-3200 | a plain name comes through unchanged, after a '/' too, and a name after '~' lands in the mcpatcher directory |
| LookupTables.FaceOrd | DynmapCore/src/main/java/org/dynmap/hdmap/TexturePack.java:1995-1999 | every face key number maps to a face-table slot |
| LookupTables.FaceKeyOf | DynmapCore/src/main/java/org/dynmap/hdmap/TexturePack.java:1995-1999 | every face-table slot is named by exactly one face key number |
| LookupTables.KeyRange | DynmapCore/src/main/java/org/dynmap/hdmap/TexturePack.java:1983-1990 | a range that reads is two non-negative 32-bit numbers |
| LookupTables.UnsignedParse | DynmapCore/src/main/java/org/dynmap/hdmap/TexturePack.java:1984-1989 | a number read from text without '-' is not negative |
| LookupTables.KeyRangeOfPrinted | DynmapCore/src/main/java/org/dynmap/hdmap/TexturePack.java:1983-1990 | `N` reads back as N..N and `N-M` as N..M |
| LookupTables.FacesSet | DynmapCore/src/main/java/org/dynmap/hdmap/TexturePack.java:2001-2003 | setting faces keeps the table's size |
| LookupTables.ApplyFaceKey | DynmapCore/src/main/java/org/dynmap/hdmap/TexturePack.java:1981-2003 | a bad number throws and a negative or reversed range abandons the file, both leaving the table alone; otherwise the texture id goes to the faces of key numbers N to M below 6 and no other face changes |
| LookupTables.RangeSet | DynmapCore/src/main/java/org/dynmap/hdmap/TexturePack.java:2046-2048 | setting a range keeps the table's size |
| LookupTables.Grown | DynmapCore/src/main/java/org/dynmap/hdmap/TexturePack.java:2035-2039 | the grown table has M+1 entries when shorter, keeps the old entries and fills the new ones with blank |
| LookupTables.Grow | DynmapCore/src/main/java/org/dynmap/hdmap/TexturePack.java:2036-2039 | the fresh table is the old one grown with blank entries |
| LookupTables.Fill | DynmapCore/src/main/java/org/dynmap/hdmap/TexturePack.java:2046-2048 | exactly the entries of the range get the value |
| LookupTables.ApplyPatchKey | DynmapCore/src/main/java/org/dynmap/hdmap/TexturePack.java:2023-2048 | a bad number throws and a bad range abandons the file, both leaving the table alone; otherwise the table grows when too short, with a size past the `int` range throwing, and patches N..M get the texture id |
| LookupTables.PatchKeyEffect | DynmapCore/src/main/java/org/dynmap/hdmap/TexturePack.java:2035-2048 | after a valid `patchN-M` the patches N..M hold the texture, the old entries outside keep theirs and new ones are blank |
| LookupTables.ToByte | DynmapCore/src/main/java/org/dynmap/hdmap/TexturePack.java:2090 | `(byte)` keeps the low eight bits as a signed value and leaves a value in byte range alone |
| LookupTables.NewLayers | DynmapCore/src/main/java/org/dynmap/hdmap/TexturePack.java:2080-2083 | the new layer table has one entry per face, all -1 |
| LookupTables.ApplyLayerKey | DynmapCore/src/main/java/org/dynmap/hdmap/TexturePack.java:2079-2094 | a bad number throws and leaves the table alone; a reversed range writes nothing; otherwise the faces from N upwards get `(byte) V` until M, stopping with an index exception at the first index outside the table |
| Resampler.TableEntry | DynmapCore/src/main/java/org/dynmap/hdmap/TexturePack.java:1453-1461 | each fine cell starts inside a coarse cell, its first part lies in that cell, and when the weight is short of a full cell the rest lies exactly in the next cell, which exists |
| Resampler.Covering | DynmapCore/src/main/java/org/dynmap/hdmap/TexturePack.java:1453-1461 | the quotient-and-remainder arithmetic behind the covering |
| Resampler.PairInGrid | DynmapCore/src/main/java/org/dynmap/hdmap/TexturePack.java:1463-1536 | every pixel the up- and downscaling loops touch, including the second cell when its weight is not zero, lies inside the coarse grid |
| Resampler.GridIndex | DynmapCore/src/main/java/org/dynmap/hdmap/TexturePack.java:1480 | a cell inside an s by s grid has its flat index inside the grid |
| Resampler.BuildTables | DynmapCore/src/main/java/org/dynmap/hdmap/TexturePack.java:1453-1461 | the loop fills exactly one offset and one weight per fine cell, each the covering's value |
| Resampler.ScaleTables | DynmapCore/src/main/java/org/dynmap/hdmap/TexturePack.java:1445-1514 | for two different scales the tables are indexed by the finer grid and describe the covering of the coarser one |
| Resampler.CopySameScale | DynmapCore/src/main/java/org/dynmap/hdmap/TexturePack.java:1439-1441 | equal scales copy the first pixels of the source, or throw without writing when the source is too short |
| BiomeShading.ScanFromMeaning | DynmapCore/src/main/java/org/dynmap/hdmap/TexturePack.java:1363-1370 | the scan answers true exactly when every remaining pixel of the lower-left triangle exists and equals the candidate, false only when some pixel differs, and throws only when some pixel lies past the end |
| BiomeShading.DetectUniform | DynmapCore/src/main/java/org/dynmap/hdmap/TexturePack.java:1362-1374 | the trivial colour is `c` exactly when the probe pixel is `c` and the whole lower-left triangle is `c` |
| BiomeShading.DetectTrivialColour | DynmapCore/src/main/java/org/dynmap/hdmap/TexturePack.java:1362-1379 | the two nested loops over the array give exactly the detection the scan describes |

## Left out

- Image decoding and file access (`loadImage`, pack discovery in zips and directories, `TexturePackLoader`) and OBJ/MTL export: I/O. Images arrive as `int` pixel sequences.
- Floating point is not modelled:
  - the resampler's colour accumulation (only its offset and weight tables and the equal-scale branch are modelled);
  - the quadrant average used when a biome image is not uniform (`BiomeShading.TrivialColour.Averaged`);
  - `fastFloor` on patch U/V: the patch coordinates arrive as integers;
  - `patch:` and `boxblock:` coordinates, `MaterialType`, and the `double` geometry of fluid patches.
- Colour arithmetic (`Color.blendColor`, `setARGB`) is not computed. Which multiplier is blended is modelled. `isTransparent` is taken to be "no alpha bits".
- The `ctm` (connected textures) remapping in the public `readColor` is not modelled: `CTMTexturePack` is not part of this model.
- Collaborators arrive as inputs:
  - world and neighbour lookups (`MapIterator`, snow and grass tests, smooth biome multipliers) are fields of `Texel.Scene` and `Texel.Shading`;
  - block states are values or lookups given as parameters;
  - `DynIntHashMap` is a `map`;
  - the server op list is a set.
- Texel.ReadColorLayered: requires that the layer chain from the start face stops within `k` steps. The source has no cycle guard and would loop forever on a cyclic `layers` table.
- `addTextureIndex` and `processTextureMaps` only copy settings into `HDBlockStateTextureMap`, which is not part of this model. The same goes for the `txtidx` array grown beside `faces` for `patchN-M`.
- TileRegistry: a `DynamicTileFile` is held as a value in the list, and its position stands for the shared object. Its `tilenames` and `material` fields are not modelled. The registry's `static` state is modelled as one object.
- TileBuffers.Growth: past index 715827882, `3*idx` wraps to a negative length and the store throws, as the source does. The correction covers only indexes 0 and 1.
- TileBuffers: tile buffers are values. The source caches one shared `blank` array into every unset entry it reads, so a later write through that array would show in all of them; that aliasing is not modelled.
- `OutOfMemoryError` from array growth is not modelled. Neither is the `int` overflow of the `_N` counter in the material-name suffix loop, which needs 2^31 taken names.
- The deprecated `JSONUtils` aliases `g`, `s`, `a` and `l` are not modelled: each is a one-line delegation to `getValue`, `setValue`, `array` or `makeJSONArray`.
- The reflective public-field branch of `Json.appendJson` is not modelled: reflection.
- `Class.forName` for `custColorMult` and `customblock` is not modelled: reflection.
- Map storage:
  - every SQL statement is an update of a map-modelled table;
  - connection pools, `SQLITE_BUSY` retries, locks and clocks (the `LastUpdate` timestamps) are not modelled;
  - `getTile`'s world and map-prefix lookup is a parameter.
- `Character.isLetter` and `Character.isDigit` are restricted to ASCII. So are `toLowerCase` and `Integer.parseInt`.
- Directives of `loadModelFile` other than `layer:`, pattern rows, `rotate:`, `boxlist:` and `ignore-updates:` are not modelled, nor is `patchrotate:`. The line loop, file reading and the `[version]` prefix dispatch are left out; the range test is modelled in ModelVersions.
- BlockModels: `METAMASK_ALL` comes from the `BlockModel` interface, which is not part of this model. It is taken as -1, the mask's initial value.
- Log output and warnings are not modelled.
- PostgresStorage.TileTable.Write: the zoom-0 `enqueueZoomOutUpdate` callback is recorded as a list of requested tiles; what the world then does with the request is not modelled. The `SQLException` path (the error is logged and `write` returns false) is not modelled either.
- Json.StringifyJson: an object's members are written in the model's sequence order. json-simple keeps them in a `HashMap`, so the source writes them in hash order, which is not modelled.
- TileBuffers.CopyRows: row offsets are computed in unbounded integers. The 32-bit wrap-around of `(h+from_y)*width + from_x` is not modelled; it needs images larger than 2^31 pixels.
- JSONUtils.SetValue: a `JSONObject` is a value here. Two paths sharing one nested object, or a caller keeping a reference to a nested object, are not modelled: an update is seen only through the object it returns.
- FluidRenderer.FluidStateRenderer: the mesh cache is a field of each renderer. In the source `meshcache` is static, shared by every renderer instance, so one renderer's initialisation also fills the cache for the others.
- The `DynmapListenerManager` callback that runs `buildClientConfiguration` is modelled as a direct call, `ClientComponents.ClientComponent.OnBuildClientConfiguration`.
- Texel.LilyOrientation: only the range of the orientation is stated. The hash is modelled with 32- and 64-bit wrap-around.

## Findings

| source | as written | input that shows it | evidently intended | confidence | as-written member | corrected member |
|---|---|---|---|---|---|---|
| DynmapCore/src/main/java/org/dynmap/hdmap/TexturePack.java:3592-3601 | `getMatIDForTileID` names an unnamed tile `txt<id>` and points that name at it without checking whether another tile already has the name | tile 9 loaded from `txt5.png` is named `txt5` by `setMatIDForTileID`; then `getMatIDForTileID(5)` also returns `txt5`, and `txt5` now leads to tile 5 | search for a free name with the `_2`, `_3` suffixes, as `setMatIDForTileID` does, so that the two maps stay inverse | medium; not executed | LookupTables.GetMatIDAsWritten, LookupTables.MatIdCollision | LookupTables.MaterialIds.GetMatIDForTileID, LookupTables.MatIdSearchAvoidsCollision |
| DynmapCore/src/main/java/org/dynmap/modsupport/impl/BlockModelImpl.java:101-107 | the id part maps each id `i` to `ids[i]`, indexing by value. The name part is appended with no comma | a model with the single id 5: `ids[5]` throws ArrayIndexOutOfBoundsException. In fact any model with an id throws, because the ids are distinct and positive | write each id by value, and put a comma between the id part and the name part | high; not executed | BlockModels.IDsAndMeta, BlockModels.IdsByValueAlwaysFail | BlockModels.BlockModelImpl.GetIDsAndMetaIntended, BlockModels.IntendedFieldsRecoverEntries |
| DynmapCore/src/main/java/org/dynmap/hdmap/HDBlockModels.java:79-96 | `remapModel` looks up both `frombs` and `tobs` by `bn`, so `newbn` is never used and each state copies its own entries | `remapModel("a", "b")` leaves the model of every state of `b` unchanged | the target states are those of `newbn`: state k of `newbn` takes the model and flags of state k mod fcnt of `bn` | high; not executed | HDBlockModels.ModelRegistry.RemapModel | HDBlockModels.ModelRegistry.RemapModelIntended |
| DynmapCore/src/main/java/org/dynmap/hdmap/TexturePack.java:506-511 | `setTileARGB` grows a table that is too short to `3*idx/2` entries, which is not more than `idx` for idx 0 and 1 | `setTileARGB(0, buf)` on an empty table grows it to length 0, and the store throws. The tables the pack creates have `MAX_TILEINDEX` entries, so this is latent | grow to at least `idx + 1` entries | low; not executed | TileBuffers.SetTileAsWritten, TileBuffers.SetTileAsWrittenFailsAtZero | TileBuffers.TileTable.SetTileARGB, TileBuffers.SetThenGet |
