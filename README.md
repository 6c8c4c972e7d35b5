# ProjMgrUtils string helpers in Dafny

This project models the string-level helpers of the CMSIS project manager's
`ProjMgrUtils` class and proves properties of them. There are four groups:

- **Identifier codec.** Component, condition and pack identifiers are built from
  the attributes of an RTE item. They concatenate `prefix + value` pairs and skip
  empty values (`ConstructID` and the `Get*ID` builders). A component identifier
  is decomposed back into an attribute map by position (`ComponentAttributesFromId`).
- **Compiler version ranges.** A compiler id has the form `<name>@[>=]<version>`.
  It is expanded into name, minimum and maximum (`ExpandCompilerId`). Two ids
  are tested for overlap (`AreCompilersCompatible`) and intersected (`CompilersIntersect`).
- **Context entries.** `<project>.<build>+<target>` and `<project>+<target>.<build>`
  are cut into their three names (`ParseContextEntry`).
- **Small helpers.**
  - `PushBackUniquely` on vectors, lists and pair vectors.
  - `StringToInt`.
  - `SetOutputType` on an `OutputTypes` record.
  - `GetCategory` by file extension.

## Modelling choices

- An `RteItem*` is an `Option<RteItem>` whose record holds the attributes the
  builders read: vendor, class, bundle, group, sub, variant, version, name and tag.
- `ConstructID`, `ComponentAttributesFromId`, `ParseContextEntry` and `GetCategory`
  loop in the source, so they are methods with loop invariants. Each is proved
  equal to a specification function, and the properties are lemmas about that function.
- `PushBackUniquely` changes the caller's container in place. The container is
  the class `Sequence` with a `seq` field.
- `SetOutputType` changes the caller's `OutputTypes` record. The record is a
  class with five fields.
- `ExpandCompilerId` and `CompilersIntersect` write through reference parameters.
  - The value a reference holds on entry is an input, and its final value is an output.
  - `CompilersIntersect` may leave `intersection` untouched. Its specification
    therefore returns `Unchanged` or `Assigned(id)`.
- `VersionCmp::Compare` is the function-typed parameter `compare`.
  - Every lemma states what it assumes of `compare`.
  - `ValidComparator`: a version compares equal to itself, and swapping the arguments swaps the sign.
  - `VersionOrder` adds transitivity.
  - `StrictOrder` adds that only equal strings compare equal.
- Line 311 tests `min == max` as strings, not with the comparator. The model keeps both notions.
- The code of the RteUtils helpers is not part of this model, so the model states what they are assumed to do:
  - `GetPrefix` is the whole string when the delimiter is absent.
  - `GetSuffix` is `""` when the delimiter is absent.
  - `RemoveSuffixByString` and `RemovePrefixByString` give the text before and after the delimiter.
  - `SplitString` cuts at every delimiter.
  - The definitions use the first occurrence and keep empty segments. Most lemmas
    only use inputs with one occurrence and no empty segment. Three lemmas state
    these first-occurrence, empty-keeping definitions themselves:
    `RteUtils.GetPrefixSuffixSpec` holds for every string, `RteUtils.SplitFirst`
    allows an empty leading segment, and `ComponentIdProofs.ConditionIdParts`
    cuts at the first space when the component id holds one.
- `XmlItem::AddAttribute(key, value, insertEmpty)` is `AddAttribute`, with the
  flag explicit. The two-argument calls pass `true`. With `false`, an empty value
  leaves the map unchanged. `ComponentIdProofs.SubVariantWins` relies on this:
  its clause that an empty second variant keeps the first one holds only under
  this reading. A missing key reads as `""` (`Lookup`).
- `ParseContextEntry` uses three ECMAScript regular expressions. Their results
  are stated directly as string functions:
  - The project is the text before the first `.` or `+`.
  - The build is the text after the last `.` that comes before the last `+`, up
    to that `+`. If no `.` comes before the last `+`, it is the text after the
    last `.`. If there is no `.`, it is `""`.
  - The target follows the same rule with the two separators swapped.
  - An entry holding `\n` or `\r` matches no pattern and gives three empty names.
- The model follows the code where a plain reading of the context-entry format
  differs from it. That reading has the build follow the *first* `.`, but the
  greedy `.*` at lines 340 and 342 makes build and target start after the *last*
  one. `LastBuildSeparatorWins` states the consequence.
- `GetCategory` walks a `std::map`, so the categories are tried in key order.
  The extension is taken as `std::filesystem::path::extension` takes it, for
  `/`-separated paths:
  - It runs from the last `.` of the file name.
  - It is empty for a name whose only `.` is its first character, and for `.` and `..`.
- `StringToInt` converts with a 32-bit `stoi`. A value above `INT_MAX` (`IntMax`)
  throws, the exception is caught, and the result is 0.

## Model

| member | source | states |
|---|---|---|
| ProjMgrConstants.DelimitersAgree | tools/projmgr/include/ProjMgrUtils.h:119-130 | the pack vendor suffix and version prefix equal the component ones; each `*_CHAR` constant is its one-character string; group and sub prefixes are each one half of `::`; every delimiter character is one of `:&@` |
| Strings.FindStringSpec | tools/projmgr/src/ProjMgrUtils.cpp:87 | `find` of a two-character pattern returns the first index where it occurs, and the length of the string exactly when it does not occur |
| Strings.FindFirstOfSpec | tools/projmgr/src/ProjMgrUtils.cpp:338 | the first index holding one of the given characters; no earlier index holds one; the length exactly when none does |
| Strings.FindLastSpec | tools/projmgr/src/ProjMgrUtils.cpp:340-342 | the last occurrence of a character: found exactly when present, and no later index holds it |
| RteUtils.GetPrefixSuffixSpec | tools/projmgr/src/ProjMgrUtils.cpp:254-255 | the prefix is a delimiter-free start of the text; with a delimiter, prefix, delimiter and suffix rebuild the text; without one the prefix is everything and the suffix is empty |
| RteUtils.SplitFirst | tools/projmgr/src/ProjMgrUtils.cpp:95 | splitting cuts at the first delimiter and continues with the rest |
| RteUtils.SplitWhole | tools/projmgr/src/ProjMgrUtils.cpp:95 | a text without the delimiter is a single segment |
| ComponentIds.ConstructId | tools/projmgr/src/ProjMgrUtils.cpp:144-152 | the loop builds exactly the identifier `IdOf` of the pair list |
| ComponentIds.IdOfAppend | tools/projmgr/src/ProjMgrUtils.cpp:144-152 | building distributes over concatenation of pair lists: the identifier is the in-order concatenation of the pieces |
| ComponentIds.EmptyValueSkipped | tools/projmgr/src/ProjMgrUtils.cpp:147-149 | a pair with an empty value contributes nothing, not even its prefix, wherever it stands in the list |
| ComponentIds.ComponentId | tools/projmgr/src/ProjMgrUtils.cpp:30-33 | no component gives the empty identifier |
| ComponentIds.ComponentIdForm | tools/projmgr/src/ProjMgrUtils.cpp:30-81 | a component identifier is the aggregate identifier followed by variant and version, and equally the vendor part, the partial identifier and the version: the three builders agree |
| ComponentIds.ComponentAggregateIdForm | tools/projmgr/src/ProjMgrUtils.cpp:54-67 | the aggregate identifier is the vendor with `::` when present, the class, then bundle, group and sub each behind its delimiter when non-empty |
| ComponentIds.PartialComponentIdForm | tools/projmgr/src/ProjMgrUtils.cpp:69-81 | the partial identifier is the class, then bundle, group, sub and variant each behind its delimiter when non-empty |
| ComponentIds.ConditionId | tools/projmgr/src/ProjMgrUtils.cpp:47-52 | no condition gives `""`; otherwise the identifier starts with the tag followed by a space |
| ComponentIds.PackageIdForm | tools/projmgr/src/ProjMgrUtils.cpp:121-132 | a pack identifier is the vendor with `::` only when there is a vendor, the name, then `@version` only when there is a version |
| ComponentIds.ComponentAttributesFromId | tools/projmgr/src/ProjMgrUtils.cpp:83-118 | the method, with its segment loop, computes exactly `ComponentAttributes` of the identifier |
| ComponentIdProofs.PackageIdOfForm | tools/projmgr/src/ProjMgrUtils.cpp:134-142 | the three-string pack identifier is the vendor and `::`, even for an empty vendor, then the name and `@version` when there is a version |
| ComponentIdProofs.PackageIdOverloads | tools/projmgr/src/ProjMgrUtils.cpp:121-142 | the two `GetPackageID` overloads agree for a pack with a vendor; for an empty vendor the three-string one has an extra leading `::` |
| ComponentIdProofs.ClassOnly | tools/projmgr/src/ProjMgrUtils.cpp:144-152 | a component with only a class has that class as its component, partial and aggregate identifier: empty fields leave no delimiter |
| ComponentIdProofs.ConditionIdParts | tools/projmgr/src/ProjMgrUtils.cpp:47-52 | a condition identifier splits at its first space back into the tag and the component identifier |
| ComponentIdProofs.PartialComponentIdDelimiters | tools/projmgr/src/ProjMgrUtils.cpp:69-81 | the partial identifier of a delimiter-free component holds no `@` and no `::` |
| ComponentIdProofs.VendorStage | tools/projmgr/src/ProjMgrUtils.cpp:87-91 | on `vendor::rest`, the `::` is found exactly when there is a vendor; the vendor is stored and `rest` remains; without a vendor the map stays empty |
| ComponentIdProofs.VersionStage | tools/projmgr/src/ProjMgrUtils.cpp:92-93 | on `body@version`, the version is read off and the body remains; an absent version reads as `""` |
| ComponentIdProofs.VendorAndVersionStage | tools/projmgr/src/ProjMgrUtils.cpp:85-93 | on `vendor::body@version`, the map holds Cvendor (only for a vendor) and Cversion, and the body remains to be split |
| ComponentIdProofs.BodySegments | tools/projmgr/src/ProjMgrUtils.cpp:94-95 | the colon segments of a well-formed body are class[&bundle], then group[&variant] or group and sub[&variant], as far as the component has them |
| ComponentIdProofs.OneSegment | tools/projmgr/src/ProjMgrUtils.cpp:99-102 | segment 0 yields class and bundle; the other keys are left as they were |
| ComponentIdProofs.TwoSegments | tools/projmgr/src/ProjMgrUtils.cpp:99-106 | segments 0 and 1 yield class, bundle, group and variant |
| ComponentIdProofs.ThreeSegments | tools/projmgr/src/ProjMgrUtils.cpp:99-110 | segments 0, 1 and 2 yield class, bundle, group, sub and variant |
| ComponentIdProofs.SegmentStage | tools/projmgr/src/ProjMgrUtils.cpp:97-115 | the segment loop on the segments of a well-formed component reads back class, bundle, group, sub and variant and keeps vendor and version |
| ComponentIdProofs.ComponentAttributesOfId | tools/projmgr/src/ProjMgrUtils.cpp:83-118 | decomposing a well-formed component's identifier gives the vendor and version map extended by its expected segments |
| ComponentIdProofs.ComponentIdRoundTrip | tools/projmgr/src/ProjMgrUtils.cpp:30-118 | decomposing the identifier of a well-formed component gives back all seven attributes, a missing key reading as `""`; the vendor key is present exactly when there is a vendor |
| ComponentIdProofs.VariantWithoutGroup | tools/projmgr/src/ProjMgrUtils.cpp:30-118 | the round trip needs a group under a variant: `class&variant` reads back with the variant as bundle and no variant |
| ComponentIdProofs.SubVariantWins | tools/projmgr/src/ProjMgrUtils.cpp:103-110 | decomposition is positional: the sub segment's variant overwrites the group segment's, and an empty one leaves it in place |
| ComponentIdProofs.LaterSegmentsIgnored | tools/projmgr/src/ProjMgrUtils.cpp:111-112 | segments after the third add nothing |
| CompilerIds.Expanded | tools/projmgr/src/ProjMgrUtils.cpp:253-268 | the maximum is the caller's value or, for a fixed version, the non-empty minimum; the name is no longer than the id |
| CompilerIds.ExpandCompilerId | tools/projmgr/src/ProjMgrUtils.cpp:253-268 | the method's three reference results are exactly the expansion `Expanded` of the id and the incoming maximum |
| CompilerIds.ExpandBareName | tools/projmgr/src/ProjMgrUtils.cpp:256-258 | a bare name gives minimum `0.0.0` and leaves the maximum untouched |
| CompilerIds.ExpandMinimumVersion | tools/projmgr/src/ProjMgrUtils.cpp:260-262 | `name@>=v` gives minimum `v` and leaves the maximum untouched |
| CompilerIds.ExpandFixedVersion | tools/projmgr/src/ProjMgrUtils.cpp:263-266 | `name@v` pins minimum and maximum to `v` whenever `v` holds no `>=` |
| CompilerIds.NoMinimumMarker | tools/projmgr/src/ProjMgrUtils.cpp:260 | a version without `>` holds no `>=` marker |
| CompilerIds.MinimumMarkerAnywhere | tools/projmgr/src/ProjMgrUtils.cpp:260-262 | a `>=` anywhere in the version makes it a minimum, and the minimum is the version without its first two characters |
| CompilerIds.MinimumMarkerExample | tools/projmgr/src/ProjMgrUtils.cpp:260-262 | `GCC@6.0.0>=` has minimum `0.0>=` |
| CompilerIds.AreCompilersCompatible | tools/projmgr/src/ProjMgrUtils.cpp:270-282 | an empty id is compatible with everything; two compatible non-empty ids name the same compiler |
| CompilerIds.CompatibleSymmetric | tools/projmgr/src/ProjMgrUtils.cpp:270-282 | compatibility does not depend on the order of the arguments |
| CompilerIds.CompatibleReflexive | tools/projmgr/src/ProjMgrUtils.cpp:270-282 | every id is compatible with itself under a valid comparator |
| CompilerIds.ExpandFormat | tools/projmgr/src/ProjMgrUtils.cpp:253-268 | expanding the text of a well-formed requirement gives back its name, lower bound and, for a fixed version, its upper bound |
| CompilerIds.CompatibleFormats | tools/projmgr/src/ProjMgrUtils.cpp:270-282 | two well-formed requirements are compatible exactly when the names agree and neither maximum lies below the other's minimum |
| CompilerIds.LargerMinimum | tools/projmgr/src/ProjMgrUtils.cpp:300 | the larger of two minimums admits exactly the versions at or above both |
| CompilerIds.EqualBounds | tools/projmgr/src/ProjMgrUtils.cpp:303 | two bounds that compare equal admit the same versions |
| CompilerIds.CommonVersionOfBounds | tools/projmgr/src/ProjMgrUtils.cpp:270-282 | when neither maximum lies below the other side's minimum, some version satisfies both requirements |
| CompilerIds.NoCommonVersionOfBounds | tools/projmgr/src/ProjMgrUtils.cpp:270-282 | when one side's maximum lies below the other side's minimum, no version satisfies both |
| CompilerIds.CompatibleIffCommonVersion | tools/projmgr/src/ProjMgrUtils.cpp:270-282 | under a version order, two well-formed requirements are compatible exactly when they name the same compiler and some version satisfies both |
| CompilerIds.Intersection | tools/projmgr/src/ProjMgrUtils.cpp:284-288 | both ids empty, or incompatible ids, leave `intersection` unchanged |
| CompilerIds.CompilersIntersect | tools/projmgr/src/ProjMgrUtils.cpp:284-316 | the method leaves in `intersection` exactly what the outcome `Intersection` prescribes for its incoming value |
| CompilerIds.UnchangedCases | tools/projmgr/src/ProjMgrUtils.cpp:284-316 | `intersection` is left untouched exactly when both ids are empty, they are incompatible, or the resolved maximum is set and differs as a string from the resolved minimum |
| CompilerIds.IntersectionOfFormats | tools/projmgr/src/ProjMgrUtils.cpp:289-316 | on compatible well-formed requirements the intersection is rendered from the non-empty name, the larger minimum and the smaller maximum of their bounds |
| CompilerIds.FixedMeet | tools/projmgr/src/ProjMgrUtils.cpp:310-314 | every version a fixed version admits is admitted by a requirement compatible with it |
| CompilerIds.FixedIsCommonRange | tools/projmgr/src/ProjMgrUtils.cpp:310-314 | a fixed version compatible with another requirement is exactly their common range |
| CompilerIds.MinimumsCommonRange | tools/projmgr/src/ProjMgrUtils.cpp:302-309 | two minimums meet at the larger one, written as a bare name when it compares equal to `0.0.0` |
| CompilerIds.IntersectionIsCommonRange | tools/projmgr/src/ProjMgrUtils.cpp:284-316 | an id assigned to two well-formed requirements is itself a well-formed requirement for the same compiler admitting exactly the versions both admit |
| CompilerIds.StrictIntersectionAssigned | tools/projmgr/src/ProjMgrUtils.cpp:310-315 | under a strict order, compatible well-formed requirements always get an intersection id |
| CompilerIds.IntersectionCommutes | tools/projmgr/src/ProjMgrUtils.cpp:284-316 | under a strict order the intersection does not depend on the order of the arguments |
| CompilerIds.IntersectMinimumsExample | tools/projmgr/src/ProjMgrUtils.cpp:284-316 | `GCC@>=6.0.0` with `GCC@>=8.0.0` gives `GCC@>=8.0.0` |
| CompilerIds.IntersectMinimumFixedExample | tools/projmgr/src/ProjMgrUtils.cpp:284-316 | `GCC@>=6.0.0` with `GCC@8.0.0` gives `GCC@8.0.0` |
| CompilerIds.IntersectEmptyWithFixed | tools/projmgr/src/ProjMgrUtils.cpp:284-316 | an empty id with a fixed version `name@v` above `0.0.0` gives `name@v`: the empty side contributes no name and no maximum |
| CompilerIds.IntersectEmptyExample | tools/projmgr/src/ProjMgrUtils.cpp:284-316 | an empty id with `GCC@6.0.0` gives `GCC@6.0.0` |
| CompilerIds.IntersectBareExample | tools/projmgr/src/ProjMgrUtils.cpp:284-316 | `GCC` with `GCC` gives `GCC` |
| ContextEntries.ParseContextEntry | tools/projmgr/src/ProjMgrUtils.cpp:334-352 | the loop over the three patterns fills project, build and target exactly as `Parse` says |
| ContextEntries.ProjectIsFirstField | tools/projmgr/src/ProjMgrUtils.cpp:338 | the project is a separator-free start of the entry, ending at the first `.` or `+` or at the end |
| ContextEntries.LineTerminatorEmptiesAll | tools/projmgr/src/ProjMgrUtils.cpp:344-350 | an entry with a line terminator gives three empty names |
| ContextEntries.FieldWithoutOpener | tools/projmgr/src/ProjMgrUtils.cpp:340-342 | the build never holds a `.` and the target never holds a `+` |
| ContextEntries.NoBuildSeparator | tools/projmgr/src/ProjMgrUtils.cpp:340 | without a `.` the build is empty |
| ContextEntries.NoTargetSeparator | tools/projmgr/src/ProjMgrUtils.cpp:342 | without a `+` the target is empty |
| ContextEntries.ProjectBeforeSeparator | tools/projmgr/src/ProjMgrUtils.cpp:338 | the project of a plain name followed by a separator and anything is that name |
| ContextEntries.FieldBeforeClose | tools/projmgr/src/ProjMgrUtils.cpp:340-342 | a field followed by the other separator ends at it |
| ContextEntries.FieldAfterClose | tools/projmgr/src/ProjMgrUtils.cpp:340-342 | a field after the other separator runs to the end |
| ContextEntries.FieldAtEnd | tools/projmgr/src/ProjMgrUtils.cpp:340-342 | without the other separator a field runs to the end |
| ContextEntries.ParseBuildThenTarget | tools/projmgr/src/ProjMgrUtils.cpp:334-352 | `p.b+t` gives project `p`, build `b`, target `t` |
| ContextEntries.ParseTargetThenBuild | tools/projmgr/src/ProjMgrUtils.cpp:334-352 | `p+t.b` gives project `p`, build `b`, target `t` as well |
| ContextEntries.ParseBuildOnly | tools/projmgr/src/ProjMgrUtils.cpp:334-352 | `p.b` gives `p`, `b` and no target |
| ContextEntries.ParseTargetOnly | tools/projmgr/src/ProjMgrUtils.cpp:334-352 | `p+t` gives `p`, no build and `t` |
| ContextEntries.ParseProjectOnly | tools/projmgr/src/ProjMgrUtils.cpp:334-352 | a plain `p` gives `p` and neither build nor target |
| ContextEntries.ParseCompose | tools/projmgr/include/ProjMgrUtils.h:302-307 | parsing the entry composed from plain names gives those names back |
| ContextEntries.LastBuildSeparatorWins | tools/projmgr/src/ProjMgrUtils.cpp:340 | with two `.`, the build is the text after the second |
| Containers.Sequence.PushBackUniquely | tools/projmgr/src/ProjMgrUtils.cpp:219-229 | the search-then-append leaves the container as `PushedUniquely` of its old elements |
| Containers.PushBackPairUniquely | tools/projmgr/src/ProjMgrUtils.cpp:231-238 | the early-return loop leaves the pair vector as `PushedUniquely` of its old elements |
| Containers.PushedUniquelyShape | tools/projmgr/src/ProjMgrUtils.cpp:219-238 | afterwards the value is present; if it was there nothing changes, else it is appended and earlier elements keep their places |
| Containers.PushedUniquelyElements | tools/projmgr/src/ProjMgrUtils.cpp:219-238 | the elements afterwards are the old ones plus the value, counted once more only when it was absent |
| Containers.PushedUniquelyKeepsDistinct | tools/projmgr/src/ProjMgrUtils.cpp:219-238 | a container without duplicates never gains one |
| Containers.PushedUniquelyIdempotent | tools/projmgr/src/ProjMgrUtils.cpp:219-238 | pushing the same value twice is pushing it once |
| Containers.PushedAllCollects | tools/projmgr/src/ProjMgrUtils.cpp:219-238 | pushing a list of values one by one keeps the container duplicate-free and collects exactly the old elements and the values |
| Numbers.StringToInt | tools/projmgr/src/ProjMgrUtils.cpp:240-250 | the result is never negative and never above `INT_MAX`, and it is non-zero only for text matching `[+]digits` |
| Numbers.DecimalRoundTrip | tools/projmgr/src/ProjMgrUtils.cpp:245 | reading back the decimal text of `n` gives `n` |
| Numbers.StringToIntRoundTrip | tools/projmgr/src/ProjMgrUtils.cpp:240-250 | every int from 0 to `INT_MAX` reads back from its decimal text, with or without a leading `+` |
| Numbers.StringToIntOverflow | tools/projmgr/src/ProjMgrUtils.cpp:244-247 | a value above `INT_MAX` reads as 0 |
| Numbers.LeadingZero | tools/projmgr/src/ProjMgrUtils.cpp:245 | a leading zero does not change the value of a digit run |
| Numbers.StringToIntLeadingZero | tools/projmgr/src/ProjMgrUtils.cpp:243-245 | leading zeros are accepted and read as nothing |
| Numbers.StringToIntRejects | tools/projmgr/src/ProjMgrUtils.cpp:243 | the empty text, a sign alone, two signs, a minus, trailing and leading junk read as 0 |
| Categories.GetCategory | tools/projmgr/src/ProjMgrUtils.cpp:199-217 | the search loop with its early return answers exactly `CategoryOf` of the file |
| Categories.NamesAreNotOther | tools/projmgr/src/ProjMgrUtils.cpp:200-209 | no category is called `other` |
| Categories.CategoryFromFinds | tools/projmgr/src/ProjMgrUtils.cpp:211-216 | the search from a position answers `other` exactly when no later list holds the extension, else the name of the first list that does |
| Categories.CategoryOfSpec | tools/projmgr/src/ProjMgrUtils.cpp:199-217 | the answer is `other` exactly when no list holds the extension, else the name of the first category in key order whose list holds it |
| Categories.FileNameAfterSlash | tools/projmgr/src/ProjMgrUtils.cpp:210 | the file name of `dir/name` is `name` |
| Categories.ExtensionAfterDot | tools/projmgr/src/ProjMgrUtils.cpp:210 | the extension of `stem.x` is `.x` |
| Categories.ExtensionOfPath | tools/projmgr/src/ProjMgrUtils.cpp:210 | the extension of `dir/stem.x` is `.x` |
| Categories.LeadingDotHasNoExtension | tools/projmgr/src/ProjMgrUtils.cpp:210 | a name whose only dot is its first character has no extension, so `.c` is `other` |
| Categories.CategoryOfPath | tools/projmgr/src/ProjMgrUtils.cpp:210-216 | the category of `dir/stem.x` is the category of `.x` |
| Categories.UpperCaseCIsSourceC | tools/projmgr/src/ProjMgrUtils.cpp:201 | matching is case-sensitive and `.C` is listed: it is sourceC |
| Categories.UpperCaseCCIsSourceCpp | tools/projmgr/src/ProjMgrUtils.cpp:202 | `.CC` is sourceCpp |
| Categories.UpperCaseTxtIsOther | tools/projmgr/src/ProjMgrUtils.cpp:208 | `.TXT` is not a document, it is `other` |
| OutputSettings.KindNameRoundTrip | tools/projmgr/include/ProjMgrUtils.h:135-139 | each output name selects its output and no other name selects it |
| OutputSettings.SetOutputType | tools/projmgr/src/ProjMgrUtils.cpp:354-366 | the output the name selects is switched on; every other output, every file name and every other flag stay as they were; no flag is cleared |

## Left out

- `ReadGpdscFile`, `ExecCommand` and `GetCompilerRoot` are not modelled. They are file-system, process and environment I/O, plus calls into the pack loader.
- The constructor, the destructor, the `ConnectionsCollection` type, the access-sequence names and the output affix constants are not modelled. They are data with no behaviour here.
- `VersionCmp::Compare` is a parameter. Its code is not part of this model, and the lemmas state the properties they assume of it.
- The RteUtils helpers and `XmlItem::AddAttribute` are not part of this model. They are stated as the assumptions listed above. The three lemmas named there (`RteUtils.GetPrefixSuffixSpec`, `RteUtils.SplitFirst`, `ComponentIdProofs.ConditionIdParts`) describe the first-occurrence, empty-keeping stand-ins; every other lemma uses inputs where the delimiter occurs at most once and no segment is empty.
- The model finds only two-character search strings, because the only ones used are `::` and `>=`.
- The `std::regex` engine is not modelled. The results of the three context-entry patterns are stated directly.
- `std::filesystem::path` is modelled for `/`-separated paths only. Windows `\` separators and root names are left out.
- Categories.CategoryOfSpec: the model does not prove that no extension appears in two category lists. The first list in key order wins either way, as in the code.
- Numbers.StringToInt: the model captures the 32-bit range only through `IntMax`. `stoi` on the captured digits is modelled as their decimal value.
- ComponentIdProofs.ComponentIdRoundTrip: proved only for delimiter-free fields with a class and with no sub or variant lacking a group. `VariantWithoutGroup` shows the round trip does not hold without the variant condition.
- CompilerIds.IntersectionCommutes: proved under a strict order only. Under a comparator that calls different strings equal, the larger minimum depends on argument order.
