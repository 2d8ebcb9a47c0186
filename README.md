# arch-pkg-text, modelled in Dafny

`arch-pkg-text` reads the two line-oriented text formats of Arch Linux package
metadata without copying them, and parses the values found in them.

- **desc** is the flat format of the pacman database. Each `%NAME%` header line
  starts a field. The field's value is the text up to the next header line.
- **.SRCINFO** is the sectioned format generated from a `PKGBUILD`. It is made of
  `name[_arch] = value` lines. A `pkgname = …` line opens a section for one split
  package. Everything before the first such line belongs to the `pkgbase` section.

Each format has three engines:

- an eager parser, which reads the whole text into a record and passes every
  irregularity to a caller-supplied issue handler;
- a forgetful querier, which rescans the text on every lookup;
- a memoizing querier, which moves a forward cursor through the text and caches
  every entry it passes.

The crate's value layer decodes what the engines return:

- hexadecimal checksums (with the `SKIP` sentinel) and numbers;
- list values;
- pacman-style upstream versions and their `vercmp` order;
- `epoch:upstream-release` versions;
- dependency names, version specifications and `dependency: reason` pairs.

## How the model is built

- Text is `string` (`seq<char>`). The crate's `trim` is modelled with the full
  Unicode `White_Space` set (`Text.IsWhitespace`). Its `lines()` splits after
  `\n` and then drops a `\n` or `\r\n` terminator.
- Offsets into the text are integers carried alongside each line. They replace
  the address arithmetic on slices in the crate.
- Every error taxonomy is a datatype. `Result` and `Option` come from
  `Wrappers`.
- Each engine appears in the form of its source:
  - The pure tokenizers, the forgetful engines, the query iterators of the
    parsed records and the value parsers are functions, with lemmas about them.
  - The parse loops (`DescParse.ParseWithIssues`, `SrcinfoParse.ParseWithIssues`)
    are methods with loop invariants. The hex digit loop (`Hex.ParseHexValue`)
    and the upstream-component loop are methods too. Each is proved to compute a
    reference function. The lemmas state the properties of that function.
  - The memoizing queriers are classes whose fields their methods reassign:
    `DescMemo.MemoQuerier` and `SrcinfoMemo.MemoQuerier`. So are the iterators
    `SrcinfoMemo.QueryIter`, `SrcinfoMemo.ChecksumIter` and
    `SrcinfoChecksums.SectionChecksumsIter`.
  - Every class method is proved to move the object exactly as a pure step
    function over a state value. The properties of the queriers are lemmas about
    those step functions.
- A field catalog is an enumeration datatype with a spelling function and a
  partial lookup. The .SRCINFO catalog follows the field classes of the parsed
  record and the memo cache. This matters because the enum in
  `src/srcinfo/field.rs` is an older copy: it has no BLAKE2b checksum field, and
  it names the `install` field `InstallScriptName` (src/srcinfo/field.rs:126),
  where the parsed record (src/parse/srcinfo/data.rs:384) and the memo cache
  (src/srcinfo/query/memo/cache.rs:151) call it `InstallScript`. The model uses
  `InstallScript`. The spelling `b2sums` follows the wrapper's documentation in
  `src/value.rs`.
- `non_blank_trimmed_lines` is not part of this model's source files. It is
  modelled as `lines`, then `trim`, then dropping the lines that
  `trimmed_line_is_blank` accepts.

## Model

| member | source | states |
|---|---|---|
| Hex.HexDigit | src/value/parse_hex.rs:46-55 | `0-9`, `a-f` and `A-F` are exactly the digits, each worth less than 16 |
| Hex.HexDigitSpellings | src/value/parse_hex.rs:46-55 | every digit value is read back from both its lower- and upper-case spelling |
| Hex.ReadDigitsBound | src/value/parse_hex.rs:32-44 | the digit reader leaves a prefix of its input and reads a value below `16^n` |
| Hex.HexArrayShape | src/value/parse_hex.rs:11-21 | the array decoder yields exactly `LEN` bytes and leaves a prefix of the input |
| Hex.ReadOneDigit | src/value/parse_hex.rs:37-41 | one digit read from the back adds its value at the current digit position |
| Hex.ReadStops | src/value/parse_hex.rs:37-40 | reading stops at the end of input or after the last position, and a non-digit is consumed and ends the value |
| Hex.ReadNext | src/value/parse_hex.rs:37-42 | one pass of the digit loop keeps the combined result of the reading equal to the reference reader |
| Hex.ParseHexValue | src/value/parse_hex.rs:32-44 | the imperative digit loop computes the reference reader `ReadDigits` over `2 * SIZE` digits |
| Hex.HexArrayStep | src/value/parse_hex.rs:16-18 | the last array element is the last two digit positions, a value below 256, and the rest fills the elements before it |
| Hex.ParseHexArray | src/value/parse_hex.rs:11-21 | the zeroed array filled from its last element backwards holds the reference decoding |
| Hex.ReadByteDigits | src/value/parse_hex.rs:32-44 | two trailing digits are read back as the byte they spell, leaving the text before them |
| Hex.HexArrayEncode | src/value/parse_hex.rs:11-21 | decoding text followed by the spelling of some bytes yields the decoding of the text followed by those bytes |
| Hex.EncodeRoundTrip | src/value/parse_hex.rs:11-21 | round trip: the spelling of `LEN` bytes is decoded back into them and the preceding text is the remainder |
| Hex.DigitsValueAppend | src/value/parse_hex.rs:41 | the value of joined digit strings is the first shifted past the second (`value |= digit << 4*pos`) |
| Hex.ReadDigitsOfHex | src/value/parse_hex.rs:32-44 | on pure digit text the reader takes the last `n` digits and their big-endian value |
| Hex.BytesValueAppend | src/value/parse_hex.rs:16-18 | appending a byte shifts the big-endian value by one byte |
| Hex.TwoDigitsShift | src/value/parse_hex.rs:16-18 | a digit string splits into a leading part and its last two digits with the byte shift between them |
| Hex.HexArrayOfHexStep | src/value/parse_hex.rs:16-18 | one element of the array decoder keeps the bytes' value equal to the value of the digits read |
| Hex.HexArrayOfHex | src/value/parse_hex.rs:11-21 | on digit text the array holds the big-endian value of the last `2*LEN` digits, and the remainder is what precedes them |
| Hex.HexArrayOfOne | src/value/parse_hex.rs:57-75 | the leading `1` of the tests' input decodes into one and into three bytes |
| Hex.TestInputSpelling | src/value/parse_hex.rs:60 | the tests' input is `1` and `17a` followed by the spelling of its trailing bytes |
| Hex.TestInputLastByte | src/value/parse_hex.rs:60 | the tests' input is `17afb` followed by the spelling of the byte `0x88` |
| Hex.HexArrayExamples | src/value/parse_hex.rs:57-75 | the tests' expected decodings of `17afb88` into 6, 5 and 4 bytes, zero-padded in front with nothing left over |
| Hex.HexArrayShortExamples | src/value/parse_hex.rs:57-75 | the tests' expected decodings of `17afb88` into 3, 2, 1 and 0 bytes, with the undecoded leading digits as the remainder |
| Hex.NonHexEndsOnlyOneByte | src/value/parse_hex.rs:37-40 | a non-digit is consumed and ends only the current byte: `1z2` decodes into two bytes with nothing left |
| Hex.ParseHexU128 | src/value/parse_hex.rs:24-30 | the `u128` decoder reads up to 32 digits with the reference reader |
| Hex.U128Value | src/value/parse_hex.rs:24-30 | the `u128` value fits in 128 bits and on digit text is the value of the last 32 digits |
| Values.SkipIsNotArray | src/value/skip_or_array.rs:13-21 | `is_skip` and `is_array` are each other's negation |
| Values.TryIntoArray | src/value/skip_or_array.rs:24-29 | `None` exactly for `Skip`; otherwise the array's bytes |
| Values.AsArray | src/value/skip_or_array.rs:32-37 | borrows the same bytes `try_into_array` gives |
| Values.AsSlice | src/value/skip_or_array.rs:40-42 | `None` exactly for `Skip`; otherwise the array's bytes |
| Values.ArrayTryFrom | src/value/skip_or_array.rs:45-50 | `Err(())` exactly for `Skip`; otherwise the array's bytes |
| Values.AsSliceLength | src/value/skip_or_array.rs:40-42 | a present slice has length `LEN` |
| Values.SkipOrHexArray | src/value.rs:47-58 | `SKIP` is `Skip`; other text decodes when the array decoder leaves nothing over, into `LEN` bytes |
| Values.HexU8Array | src/value.rs:27-35 | the hash wrappers decode exactly when the array decoder leaves nothing over, into `LEN` bytes |
| Values.ParseArray | src/value.rs:37-44 | `parse_array` is `u8_array` with `None` turned into `Err(())` |
| Values.EncodeIsNotSkip | src/value.rs:52-54 | lower-case hexadecimal text is never taken for `SKIP` |
| Values.SkipOrHexArrayEncode | src/value.rs:27-58 | round trip: both kinds of wrapper decode the spelling of some bytes into those bytes |
| Values.EncodeValue | src/value/parse_hex.rs:11-21 | the spelling of bytes is digit text whose value is the bytes' big-endian value |
| Values.Hex128U128 | src/value/hex128.rs:3-9 | a value exactly when the `u128` decoder leaves nothing over; that value, below `2^128` |
| Values.SkipOrHex128U128 | src/value/hex128.rs:11-20 | `SKIP` is `Some(None)`; other text is `Some` of the `Hex128` value exactly when that exists |
| Values.U128AgreesWithArray | src/value/hex128.rs:3-20 | the spelling of 16 bytes decodes into those bytes as an array and into their big-endian value as a `u128` |
| Values.AccumulateDigits | src/value.rs:75-81 | the digit loop of `u64::from_str` never reports `Empty` |
| Values.ParseU64 | src/value.rs:75-81 | `u64::from_str` reports `Empty` exactly for empty text |
| Values.AccumulateDigitsOk | src/value.rs:75-81 | the digit loop succeeds exactly on digits whose value stays below `2^64`, with that value |
| Values.DecimalValueGrows | src/value.rs:75-81 | appending digits never lowers the value (why an overflow is final) |
| Values.ParseU64Ok | src/value.rs:75-81 | `u64::from_str` succeeds exactly on an optional `+` and digits of value below `2^64`, with that value |
| Values.Decimal | src/value.rs:75-81 | the decimal spelling of a number is digit text of that value |
| Values.ParseU64Decimal | src/value.rs:75-81 | round trip: every `u64` is parsed back from its decimal spelling |
| Values.ParseNum | src/value.rs:70-84 | the numeric wrappers' `parse`: empty text is `0`, any other text as `u64::from_str`, and a value fits in `u64` |
| Values.ListItems | src/value.rs:178-184 | the list wrappers' items: at least one, none holding a newline |
| Values.ListItemsJoin | src/value.rs:178-184 | round trip: the items joined with newlines give back the text |
| UpstreamVersion.LexAntisymmetric | src/value/upstream_version.rs:175-177 | lexicographic comparison of component sequences flips when the operands swap |
| UpstreamVersion.LexIdentifies | src/value/upstream_version.rs:175-177 | lexicographic comparison is `Equal` exactly for equal sequences |
| UpstreamVersion.LexTransitive | src/value/upstream_version.rs:175-177 | lexicographic comparison is transitive |
| UpstreamVersion.LexProperPrefix | src/value/upstream_version.rs:147-151 | a proper prefix sorts first (`1.1` before `1.1.0`) |
| UpstreamVersion.CharOrder | src/value/upstream_version.rs:12-16 | the order of characters is a total order |
| UpstreamVersion.ComponentOrder | src/value/upstream_version.rs:12-16 | the derived order of components (numeric prefix, absent first, then suffix) is a total order |
| UpstreamVersion.LeadingDigits | src/value/upstream_version.rs:51-69 | the boundary of a segment is the end of its leading run of ASCII digits |
| UpstreamVersion.ParseComponent | src/value/upstream_version.rs:51-69 | the character loop computes the reference split of a segment into numeric prefix and suffix |
| UpstreamVersion.LeadingDigitsOf | src/value/upstream_version.rs:51-69 | digits followed by a non-digit: the boundary is after the digits |
| UpstreamVersion.ComponentOfSpelling | src/value/upstream_version.rs:51-69 | round trip: a component whose suffix does not start with a digit is parsed back from its spelling |
| UpstreamVersion.DecimalValueZeroPrefix | src/value/upstream_version.rs:162-167 | a leading zero does not change a digit string's value |
| UpstreamVersion.LeadingZeroIgnored | src/value/upstream_version.rs:162-167 | a leading zero does not change the component of a segment that starts with a digit |
| UpstreamVersion.ComponentOfEmpty | src/value/upstream_version.rs:29 | the doc example `""` gives no prefix and an empty suffix |
| UpstreamVersion.ComponentOfAlpha | src/value/upstream_version.rs:30-33 | the doc example `alpha` gives no prefix |
| UpstreamVersion.ComponentOf123 | src/value/upstream_version.rs:34-41 | the doc examples `123` and `123alpha` give prefix 123 with suffixes empty and `alpha` |
| UpstreamVersion.ComponentOf0Alpha | src/value/upstream_version.rs:42-45 | the doc example `0alpha` gives prefix 0 |
| UpstreamVersion.ComponentOf00Alpha | src/value/upstream_version.rs:46-49 | the doc example `00alpha` gives prefix 0 |
| UpstreamVersion.Components | src/value/upstream_version.rs:119-123 | a version has at least one component, one per separator-delimited segment |
| UpstreamVersion.CmpAntisymmetric | src/value/upstream_version.rs:175-177 | the order of validated versions flips when the operands swap |
| UpstreamVersion.CmpTransitive | src/value/upstream_version.rs:175-177 | the order of validated versions is transitive |
| UpstreamVersion.EqIffSameHashInput | src/value/upstream_version.rs:189-209 | `eq` holds exactly when the components fed to `hash` are the same, so the hash agrees with equality |
| UpstreamVersion.SameSeparatorsFirst | src/value/upstream_version.rs:117-121 | texts with separators at the same places find their first separator at the same index |
| UpstreamVersion.SplitSameButSeparators | src/value/upstream_version.rs:117-121 | texts that differ only in which separator is used split into the same segments |
| UpstreamVersion.SeparatorsIgnored | src/value/upstream_version.rs:153-161 | versions that differ only in which separators they use are equal |
| UpstreamVersion.ComponentsAppend | src/value/upstream_version.rs:119-123 | the components of two texts joined at a separator are those of each text |
| UpstreamVersion.LongerVersionSortsHigher | src/value/upstream_version.rs:147-151 | a version followed by more components sorts before the longer version |
| UpstreamVersion.ThreeComponents | src/value/upstream_version.rs:119-123 | a dotted triple has exactly the three components of its parts |
| UpstreamVersion.ZeroPaddingIgnored | src/value/upstream_version.rs:162-164 | zero-padding the numeric components does not change equality |
| UpstreamVersion.LeadingZerosExample | src/value/upstream_version.rs:164 | the doc example: `01.02.3` equals `1.2.03` |
| UpstreamVersion.FirstInvalid | src/value/upstream_version.rs:242-244 | the index of the first character outside `0-9 . _ + @ a-z A-Z` |
| UpstreamVersion.Validate | src/value/upstream_version.rs:241-253 | valid exactly when every character is allowed, keeping the text; otherwise the error names the first disallowed character and the input |
| UpstreamVersion.ValidateAccepts | src/value/upstream_version.rs:235-238 | the doc example `12.34_56a` is accepted unchanged |
| UpstreamVersion.ValidateRefuses | src/value/upstream_version.rs:239 | the doc example `2:12.34_56a-1` is refused, naming `:` |
| Version.SplitEpoch | src/value/version.rs:98-101 | the epoch is the text before the first `:`, absent exactly when there is no `:`, and the two parts spell the input |
| Version.SplitVersion | src/value/version.rs:97-110 | `MissingRelease` exactly when no `-` follows the epoch; otherwise the parts spell the input, the epoch is absent exactly without `:`, and the release holds no `-` |
| Version.SplitVersionOfSpelling | src/value/version.rs:97-110 | round trip: parts without a stray separator are split back out of `epoch:upstream-release` |
| Version.ParseEpoch | src/value/version.rs:189-193 | a parsed epoch is present exactly when the text had one |
| Version.ParseVersion | src/value/version.rs:185-199 | a parsed version comes from a successful split, has an epoch exactly when the text has a `:`, a validated upstream part and numbers that fit in `u64`; `InvalidComponents` exactly when the split fails |
| Version.ParseParts | src/value/version.rs:189-198 | the parts after the split: epoch, upstream and release parsed in that order, never a split error |
| Version.ParseEpochOfSpelling | src/value/version.rs:189-193 | round trip: a `u64` epoch is parsed back from its decimal spelling |
| Version.ParseVersionOfParts | src/value/version.rs:185-199 | every part parsing assembles the parsed version from the parts |
| Version.ParseVersionFailsAtEpoch | src/value/version.rs:189-193 | a bad epoch is reported before the rest is looked at |
| Version.ParseVersionFailsAtUpstream | src/value/version.rs:194-196 | with a good epoch, a bad upstream version is reported before the release |
| Version.ParseVersionFailsAtRelease | src/value/version.rs:197 | with everything else good, a bad release is reported |
| Version.ParseVersionOfSpelling | src/value/version.rs:185-199 | round trip: a parsed version with numbers in `u64` is parsed back from `epoch:upstream-release` |
| Version.EqAgreesWithCmp | src/value/version.rs:8-13 | the derived `eq` holds exactly when the derived `cmp` is `Equal` |
| Version.CmpAntisymmetric | src/value/version.rs:8-13 | the derived order of parsed versions flips when the operands swap |
| Version.CmpTransitive | src/value/version.rs:8-13 | the derived order of parsed versions is transitive |
| Version.EpochDominates | src/value/version.rs:8-13 | a lower epoch sorts first whatever the rest |
| Version.ValidConcat | src/value/upstream_version.rs:241-253 | valid upstream texts joined are valid |
| Version.SampleUpstreamValid | src/value/version.rs:119-122 | the doc examples' upstream part `0.1.2_rc.1` is valid |
| Version.SplitWithEpoch | src/value/version.rs:67-75 | doc example: `2:0.1.2_rc.1-1` splits into `2`, `0.1.2_rc.1`, `1` |
| Version.SplitWithoutEpoch | src/value/version.rs:79-87 | doc example: without `:` there is no epoch |
| Version.SplitWithoutRelease | src/value/version.rs:91-96 | doc example: without `-` the split reports `MissingRelease` |
| Version.ParseWithEpoch | src/value/version.rs:116-124 | doc example: `2:0.1.2_rc.1-1` parses to epoch 2, upstream `0.1.2_rc.1`, release 1 |
| Version.ParseWithoutEpoch | src/value/version.rs:126-136 | doc example: the epoch is optional |
| Version.ParseWithoutRelease | src/value/version.rs:138-148 | doc example: the release is mandatory |
| Version.DottedEpochInvalid | src/value/version.rs:150-160 | an epoch `2.1` is not an integer |
| Version.ParseBadEpoch | src/value/version.rs:150-160 | doc example: `2.1:0.1.2_rc.1-1` fails with `InvalidEpoch` |
| Version.DashedUpstreamInvalid | src/value/version.rs:162-172 | an upstream version with `-` is refused |
| Version.ParseBadUpstream | src/value/version.rs:162-172 | doc example: `2:0.1.2-rc.1-1` fails with `InvalidUpstream` |
| Version.LetterReleaseInvalid | src/value/version.rs:174-184 | a release `a` is not an integer |
| Version.ParseBadRelease | src/value/version.rs:174-184 | doc example: `2:0.1.2_rc.1-a` fails with `InvalidRelease` |
| Dependency.ValidCharClasses | src/value/dependency_name.rs:34-48 | lower-case alphanumerics are always valid, upper case never; `@ . _ + -` after the first character, `-` and `.` never first |
| Dependency.NameEnd | src/value/dependency_name.rs:20-22 | the first index from `i` whose character is not valid at its index |
| Dependency.ParseName | src/value/dependency_name.rs:19-31 | name and rest spell the input, every name character is valid at its index, and the rest is empty or starts invalid |
| Dependency.ParseNameUnique | src/value/dependency_name.rs:19-31 | any split with those three properties is the one `parse` returns |
| Dependency.LeadingHyphenOrDot | src/value/dependency_name.rs:39-40 | a leading `-` or `.` gives an empty name |
| Dependency.DependencyComponents | src/value/dependency.rs:14-18 | name and specification spell the dependency |
| Dependency.AsStr | src/value/dependency_specification_operator.rs:6-17 | each operator is spelled with one or two characters |
| Dependency.FindOperator | src/value/dependency_specification_operator.rs:50-56 | `find_map`: the first candidate that prefixes the input, with the rest; `None` exactly when none does |
| Dependency.ParseOperator | src/value/dependency_specification_operator.rs:48-57 | the found operator and the rest spell the input |
| Dependency.FindOperatorSkip | src/value/dependency_specification_operator.rs:52-56 | a candidate that is not a prefix is passed over |
| Dependency.FindOperatorHit | src/value/dependency_specification_operator.rs:52-56 | the first candidate that is a prefix is the answer |
| Dependency.ParseOperatorInOrder | src/value/dependency_specification_operator.rs:48-57 | the parse tries `<=`, `>=`, `<`, `=`, `>` in that order |
| Dependency.ParseOperatorNone | src/value/dependency_specification_operator.rs:48-57 | no operator exactly when the input does not start with `<`, `=` or `>` |
| Dependency.ParseOperatorLongest | src/value/dependency_specification_operator.rs:50 | the operator found is at least as long as any operator the input starts with (`XOrEqual` before `X`) |
| Dependency.ParseOperatorOfSpelling | src/value/dependency_specification_operator.rs:48-57 | round trip: an operator followed by a version not starting with `=` after `<`/`>` is parsed back |
| Dependency.SpecificationComponents | src/value/dependency_specification.rs:18-21 | operator and version spell the specification |
| Dependency.DependencyOfSpelling | src/value/dependency.rs:14-18 | round trip: a valid name followed by an operator and a version splits back into them |
| Dependency.OperatorLessExample | src/value/dependency_specification_operator.rs:25-28 | doc example `<1.27.0-1` |
| Dependency.OperatorLessOrEqualExample | src/value/dependency_specification_operator.rs:29-32 | doc example `<=1.27.0-1` |
| Dependency.OperatorEqualExample | src/value/dependency_specification_operator.rs:33-36 | doc example `=1.27.0-1` |
| Dependency.OperatorGreaterOrEqualExample | src/value/dependency_specification_operator.rs:37-40 | doc example `>=1.27.0-1` |
| Dependency.OperatorGreaterExample | src/value/dependency_specification_operator.rs:41-44 | doc example `>1.27.0-1` |
| Dependency.NoOperatorExamples | src/value/dependency_specification_operator.rs:45 | doc examples: no operator in `1.27.0-1`, no specification in empty text |
| Dependency.DependencyNameExample | src/value/dependency_name.rs:15-17 | doc example: `rustup>=1.27.0-1` is `rustup` and `>=1.27.0-1` |
| Dependency.DependencySpecificationExample | src/value/dependency_specification.rs:9-15 | doc example: `>=1.27.0-1` is `GreaterOrEqual` and `1.27.0-1` |
| Dependency.ReasonComponents | src/value/dependency_and_reason.rs:14-23 | no reason exactly when `: ` does not occur, and then the dependency is the trimmed text |
| Dependency.ReasonComponentsOfSpelling | src/value/dependency_and_reason.rs:14-23 | round trip: a dependency without `: ` followed by `: ` and a reason splits into both, trimmed |
| Dependency.EpochColonDoesNotSplit | src/value/dependency_and_reason.rs:15 | a `:` not followed by a space (an epoch) does not start a reason |
| Dependency.TrimUnpadded | src/value/dependency_and_reason.rs:18-21 | text with no surrounding whitespace is unchanged by `trim` |
| Dependency.ReasonExample | src/value/dependency_and_reason.rs:8-12 | doc example: `lldb: rust-lldb script` is `lldb` with reason `rust-lldb script` |
| Checksums.TypesListsEachOnce | src/srcinfo/query/checksums.rs:17-24 | every checksum type is listed in `TYPES`, and only once |
| Checksums.FieldOf | src/srcinfo/query/checksums.rs:26-31 | each checksum type maps to a multi-valued, per-architecture field |
| Checksums.TypeOfField | src/srcinfo/query/checksums.rs:33-39 | a type found for a field maps back to that field |
| Checksums.TypeOfFieldInverse | src/srcinfo/query/checksums.rs:26-39 | `try_from_field_name` inverts `into_field_name`, and finds nothing exactly for the fields no type maps to |
| Checksums.TypeTryFrom | src/srcinfo/query/checksums.rs:112-117 | `Ok` exactly for checksum fields, with the type that maps back to the field |
| Checksums.ValueFromField | src/srcinfo/query/checksums.rs:58-62 | a value exactly for checksum fields, tagged with the field's type and keeping the text |
| Checksums.ToChecksums | src/parse/srcinfo/checksums.rs:31-39 | one checksum item per field item |
| Checksums.U8Array | src/srcinfo/query/checksums.rs:72-82 | decodes exactly when the type's wrapper does; `Skip` exactly for `SKIP`; otherwise bytes of the type's size tagged with the type |
| Checksums.ChecksumParseArray | src/srcinfo/query/checksums.rs:119-125 | `parse_array` is `u8_array` with `None` turned into `Err(())` |
| Checksums.TryAsSlice | src/srcinfo/query/checksums.rs:84-92 | `None` exactly for `Skip`, otherwise the bytes |
| Checksums.U8ArrayEncode | src/srcinfo/query/checksums.rs:72-92 | round trip: the spelling of bytes of the type's size decodes into them |
| Checksums.ShortChecksumIsPadded | src/value/parse_hex.rs:11-21 | a checksum too short for its type is padded with leading zero bytes, not refused |
| Checksums.HexArrayOfEmpty | src/value/parse_hex.rs:11-21 | empty text decodes into zero bytes |
| DescField.CatalogIndex | src/desc/field.rs:54-104 | every field of the catalog has a position among its 23 entries |
| DescField.CatalogAtIndex | src/desc/field.rs:54-104 | the position of a field gives the field back |
| DescField.LookupFromSpelling | src/desc/field.rs:54-104 | a name found by the catalog lookup is spelled exactly as the text looked up |
| DescField.FieldNameFromStrMisses | src/desc/field.rs:54-104 | the catalog lookup fails exactly when no field is spelled as the text |
| DescField.SpellingDetermines | src/desc/field.rs:54-104 | no two fields share a spelling |
| DescField.CatalogEntry | src/desc/field.rs:54-104 | round trip: every field is found again from its own spelling |
| DescField.FindRejected | src/field/parse.rs:78-81 | the index of a character the name test rejects lies inside the name |
| DescField.FindRejectedFirst | src/field/parse.rs:78-81 | `find` reports the first rejected character, and nothing exactly when every character passes |
| DescField.ParseRawByCases | src/field/parse.rs:67-86 | the four errors of `parse_raw` in their order: no leading `%`, no trailing `%` (so `%` alone), `%%` empty, and the first rejected name character with its index; success exactly for `%`, a non-empty well-formed name, `%`, whose display is the input |
| DescField.ToParsedFails | src/field/parse.rs:97-102 | `to_parsed` fails exactly when no field of the catalog is spelled as the name |
| DescField.ToParsedSpelling | src/field/parse.rs:97-102 | a field `to_parsed` finds is spelled as the name |
| DescField.TryFrom | src/field/parse.rs:29-43 | tokenizer failures come back as `RawField` errors carrying the tokenizer's error, lookup failures as `Name` errors exactly when no field displays as the text, and success names the field the text displays; headers are read with the corrected tokenizer, which also accepts digits |
| DescField.SpellingIsFieldName | src/desc/field.rs:54-104 | every catalog spelling is non-empty upper case letters and digits |
| DescField.ParseRawDisplay | src/field/parse.rs:61-66 | round trip: a well-formed name displayed as `%NAME%` tokenizes back to that name |
| DescField.Md5SumRejectedAsWritten | src/desc/field.rs:74-75 | as written, `%MD5SUM%` is refused at the digit `5` (index 2) |
| DescField.Sha256SumRejectedAsWritten | src/desc/field.rs:76-77 | as written, `%SHA256SUM%` is refused at the digit `2` (index 3) |
| DescField.CatalogSpellingsAreHeaders | src/field/parse.rs:78-83 | corrected: every field's `%NAME%` tokenizes and is read back as that field |
| LineCursor.LineEnd | src/desc/query/memo.rs:27 | the end of a line lies between its start and the end of the text |
| LineCursor.LineEndFirst | src/desc/query/memo.rs:27 | a line ends at the first `\n` from its start, or at the end of the text |
| LineCursor.LineEndDrop | src/desc/query/memo.rs:58 | cutting off a prefix of the text moves line ends by its length |
| LineCursor.LineTextSlice | src/desc/query/memo.rs:27 | a line's text is the slice of the text at its start, without its terminator |
| LineCursor.NextLineStart | src/desc/query/memo.rs:40 | the next line starts strictly after the current one and within the text |
| LineCursor.LineTextDrop | src/desc/query/memo.rs:58 | the text of a line read after cutting off a prefix is the rest of the same line |
| LineCursor.LeadTrim | src/desc/query/memo.rs:38-39 | the trimmed header is the slice of its line just after the leading whitespace |
| LineCursor.LeadDropped | src/desc/query/memo.rs:57-58 | a line cut just before its trimmed header has no leading whitespace and trims to the same header |
| DescCommon.LinesWithOffsets | src/query/common.rs:12-17 | one located line per line of the text |
| DescCommon.LinesWithOffsetsSlices | src/query/common.rs:12-17 | each line's end offset lies in the text, the line is the text between its start and that offset, and lines come in order |
| DescCommon.LineTokens | src/query/common.rs:19-28 | one tokenizer result per line; headers are read with the corrected tokenizer, which also accepts digits |
| DescCommon.FindField | src/query/common.rs:19-25 | the index of the first line whose trimmed text names the field, or the end; headers are read with the corrected tokenizer, which also accepts digits |
| DescCommon.FindFieldFirst | src/query/common.rs:19-25 | no line before that index names the field |
| DescCommon.FindFieldAbsent | src/query/common.rs:19-25 | the search reaches the end exactly when no line names the field |
| DescCommon.RegionBounds | src/query/common.rs:27-31 | the value region runs from the end of the header line to the end of the last non-header line before the next header line or the end |
| DescCommon.QueryNoHeader | src/query/common.rs:19-25 | without a header of the field the answer is `None` |
| DescCommon.QueryEmptyRun | src/query/common.rs:27-29 | a header directly followed by another header or by the end answers `None` |
| DescCommon.QueryRegion | src/query/common.rs:31-37 | otherwise the answer is the region with `\n` and `\r` trimmed from both ends, and `None` exactly when nothing else is in it |
| DescCommon.QueryTrimmed | src/query/common.rs:31-37 | an answer is never empty and never starts or ends with a line break |
| DescParse.Default | src/parse/desc.rs:97 | a fresh record holds no field |
| DescParse.SetRawValue | src/parse/desc.rs:34-38 | `set_raw_value` stores the value of its field and changes no other |
| DescParse.IgnoreUnknownField | src/parse/desc.rs:68-80 | `Ok` exactly for an unknown field; an empty text becomes `EmptyInput` and a first line that is not a header `ValueWithoutField` of that line |
| DescParse.Tokens | src/parse/desc.rs:152 | one tokenizer result per line; headers are read with the corrected tokenizer, which also accepts digits |
| DescParse.TokensAppend | src/parse/desc.rs:152 | lines are tokenized each on their own |
| DescParse.NextHeader | src/parse/desc.rs:151-154 | the next header line at or after a position, or the end |
| DescParse.NextHeaderAt | src/parse/desc.rs:151-154 | a header line with only value lines before it is the next header |
| DescParse.NextHeaderSkips | src/parse/desc.rs:151-155 | every line before the next header is value content |
| DescParse.NextHeaderPrefix | src/parse/desc.rs:151-154 | lines after a header found do not move it |
| DescParse.NextHeaderDrop | src/parse/desc.rs:151-154 | the search is unaffected by the lines already consumed |
| DescParse.Entries | src/parse/desc.rs:125-138 | a text whose first line is a header splits into at least one entry |
| DescParse.EntriesUnfold | src/parse/desc.rs:125-138 | the first entry is the first header with the value lines up to the next header, followed by the entries from there |
| DescParse.EntriesAt | src/parse/desc.rs:125-138 | the same, from any header line of the text |
| DescParse.EntriesAppend | src/parse/desc.rs:125-138 | texts joined at a header split into the entries of each |
| DescParse.ParseNext | src/parse/desc.rs:146-159 | `parse_next` returns the total length of the value lines before the next header line, and that header with its line index, or `None` exactly when no header follows; headers are read with the corrected tokenizer, which also accepts digits |
| DescParse.ConcatSlice | src/parse/desc.rs:128-129 | the offsets of consecutive runs of lines add up |
| DescParse.ValueSpan | src/parse/desc.rs:128-129 | the text between the end of a header line and the next header line is the value lines |
| DescParse.ValueAt | src/parse/desc.rs:128-131 | `processed_length` plus the header line's length and the value length is the next header's offset, and the trimmed slice is the entry's value |
| DescParse.RunEntriesCons | src/parse/desc.rs:130-137 | a known entry is stored, an unknown entry the handler refuses ends the run with its error, and an unknown entry it accepts is passed over |
| DescParse.RunFromStep | src/parse/desc.rs:126-138 | one pass of the loop handles the entry of the current header and continues at the next header |
| DescParse.ParseWithIssues | src/parse/desc.rs:90-141 | for any handler, the loop computes the reference parse: leading non-header lines go to the handler as `FirstLineIsNotAField` and, when let through, are skipped and counted in `processed_length`; running out of lines goes to it as `EmptyInput` and, when let through, completes with the empty record; then the entries are handled in turn; the unknown-field pass advances to the next header |
| DescParse.ParseFields | src/parse/desc.rs:124-140 | the main loop, started at the first header line with `processed_length` at that line's offset, computes the handling of all entries from there |
| DescParse.Parse | src/parse/desc.rs:84-87 | `parse` is the reference parse with unknown fields ignored; `EmptyInput` exactly for empty text, `ValueWithoutField(first line)` exactly when the first line is not a header |
| DescParse.RunEntriesAccepting | src/parse/desc.rs:130-137 | a handler that accepts every unknown field gives a complete record of every known entry |
| DescParse.FirstRejected | src/parse/desc.rs:134 | the first entry the handler refuses, or the end |
| DescParse.FirstRejectedIsFirst | src/parse/desc.rs:134 | no entry before it is refused |
| DescParse.RunEntriesStops | src/parse/desc.rs:100-107 | the run stops at the first refused entry with the handler's error and every known entry before it kept; without one it is complete |
| DescParse.ApplyKnownUntouched | src/parse/desc.rs:130-132 | a field no entry names keeps its value |
| DescParse.LastOccurrenceWins | src/parse/desc.rs:34-37 | a repeated field holds the value of its last entry |
| DescParse.ApplyKnownAppend | src/parse/desc.rs:126-138 | entries are applied in order |
| DescParse.UnknownEntryIgnored | src/parse/desc.rs:133-135 | an unknown entry changes nothing in the record |
| DescParse.BlockThenEntries | src/parse/desc.rs:125-138 | a block of one header and value lines followed by more text splits into its entry and the entries of the rest |
| DescParse.InsertedEntryIgnored | src/parse/desc.rs:133-135 | an extra unknown entry leaves the result unchanged under a handler accepting unknown fields |
| DescParse.UnknownBlockInsertion | tests/issue_30.rs:10-15 | corrected: inserting an unknown header with value lines between fields, as the issue's test does, leaves the parse unchanged under any handler that lets unknown fields through |
| DescParse.StartsAtHeader | src/parse/desc.rs:110-125 | a text whose first line is a header is parsed as the run of its entries, whatever the handler |
| DescParse.AcceptedEmptyInputCompletes | src/parse/desc.rs:112-113 | corrected: an empty text whose `EmptyInput` the handler lets through parses to the complete empty record |
| DescParse.StartSkips | src/parse/desc.rs:115-119 | corrected: the first-field loop passes over the non-header lines the handler lets through |
| DescParse.LeadingNonHeaderLinesIgnored | src/parse/desc.rs:115-119 | corrected: non-header lines in front of the first header that the handler lets through leave the parse as if the text began at that header |
| DescAsWritten.PosAfterNext | src/parse/desc.rs:127 | `parse_next` moves the line iterator forward and no further than the end |
| DescAsWritten.OneLess | src/parse/desc.rs:126 | the pass counter decreases |
| DescAsWritten.UnknownFieldStays | src/parse/desc.rs:133-137 | as written, an accepted unknown field only moves the line iterator: `processed_length`, the current header and the record stay |
| DescAsWritten.PosAfterPasses | src/parse/desc.rs:127 | the line iterator's position after several passes stays within the lines |
| DescAsWritten.NeverFinishes | src/parse/desc.rs:126-138 | as written, after any number of passes from an accepted unknown header the loop is still running with the same header |
| DescAsWritten.LivelockExhaustsLines | src/parse/desc.rs:126-138 | as written, once the lines are used up the loop keeps repeating the same state |
| DescAsWritten.RunOnePass | src/parse/desc.rs:126-138 | a run is one pass followed by the rest |
| DescAsWritten.AsWrittenStart | src/parse/desc.rs:110-125 | under a handler that aborts on the first-line issues, the main loop is entered only with the first line consumed, exactly as one pass of the first-field loop over the first line enters it, and otherwise the parse stops as that pass stops it |
| DescAsWritten.AsWrittenFirstStep | src/parse/desc.rs:110-122 | one pass of the first-field loop as written never moves the line iterator backwards nor past the end |
| DescAsWritten.EmptyInputNeverFinishes | src/parse/desc.rs:112-113 | as written, once the lines are used up and the handler lets `EmptyInput` through, any number of passes leaves the loop where it was |
| DescAsWritten.EmptyTextNeverFinishes | src/parse/desc.rs:112-113 | as written, the empty text under a handler that lets `EmptyInput` through never leaves the first-field loop |
| DescAsWritten.FirstRunSkips | src/parse/desc.rs:115-121 | as written, the first-field loop passes over the non-header lines let through and enters the main loop at the next header with `processed_length` 0 |
| DescAsWritten.SkippedLinesMisplaceValue | src/parse/desc.rs:115-129 | as written, after skipped leading lines the main loop starts with `processed_length` 0, so the value offset falls before the end of the header line |
| DescAsWritten.SpellingLength | src/desc/field.rs:54-104 | no catalog spelling is longer than 16 characters |
| DescAsWritten.LongNameIsUnknown | src/field/parse.rs:97-102 | a name longer than every spelling is unknown |
| DescAsWritten.Issue30HeaderIsUnknown | tests/issue_30.rs:10-15 | the issue's header `%THISFIELDISUNKNOWN%` tokenizes but names no field |
| DescAsWritten.UnknownFirstHeaderLivelock | tests/issue_30.rs:59-66 | as written, a text starting with an unknown header never finishes parsing under a handler accepting unknown fields |
| Partial.NewComplete | src/parse/partial.rs:34-39 | a complete result has no error and converts to `Ok` of its record |
| Partial.NewPartial | src/parse/partial.rs:42-47 | a partial result has an error and converts to `Err` of it |
| Partial.TryIntoComplete | src/parse/partial.rs:52-57 | `Ok` exactly when there is no error, with the record; otherwise the stored error |
| Partial.IntoPartial | src/parse/partial.rs:60-62 | the pair rebuilds the same result |
| Partial.FromPair | src/parse/partial.rs:92-96 | the record and the presence of the error come from the pair |
| Partial.PairRoundTrip | src/parse/partial.rs:86-96 | round trip: a pair made into a result and back is unchanged |
| DescMemo.DefaultCache | src/desc/query/memo.rs:128-134 | every slot of a fresh cache is unoccupied |
| DescMemo.Add | src/desc/query/memo.rs:120-125 | `add` occupies the field's slot with the value (`Some(None)` for none) and changes no other slot |
| DescMemo.NonEmpty | src/desc/query/memo.rs:80 | an empty value becomes `None`, any other is kept |
| DescMemo.ScanHeader | src/desc/query/memo.rs:40-44 | the search for the next header returns a line whose trimmed text tokenizes, or the end; headers are read with the corrected tokenizer, which also accepts digits |
| DescMemo.ValueStart | src/desc/query/memo.rs:38-39 | the value starts within the first line, just after its trimmed header |
| DescMemo.TakeEntry | src/desc/query/memo.rs:46-60 | slicing the value and moving the cursor computes the reference step |
| DescMemo.EmptyIsNoHeader | src/desc/query/memo.rs:33-34 | an empty line is not a header |
| DescMemo.CutAtHeader | src/desc/query/memo.rs:56-58 | the unread text cut at the next trimmed header starts with it and remembers it |
| DescMemo.NextEntryFacts | src/desc/query/memo.rs:26-61 | `next_entry` keeps the cursor valid, shortens the unread text when it returns an entry and changes nothing when it returns `None` |
| DescMemo.RemainingStep | src/desc/query/memo.rs:76 | the entries still to come are the one `next_entry` returns and those after it |
| DescMemo.StoreSlot | src/desc/query/memo.rs:77-81 | storing an entry occupies the slot of its known field and leaves the rest; an unknown header stores nothing |
| DescMemo.CacheOfSnoc | src/desc/query/memo.rs:76-81 | every entry consumed is stored in turn |
| DescMemo.FirstOf | src/desc/query/memo.rs:82 | the first entry of the field, or the end |
| DescMemo.FirstOfFirst | src/desc/query/memo.rs:82 | no earlier entry names the field |
| DescMemo.FirstOfAppend | src/desc/query/memo.rs:76-85 | the first entry of the field in joined entries is found in the first part, or else in the second |
| DescMemo.FirstOfSnoc | src/desc/query/memo.rs:76-85 | one more entry keeps or supplies the first entry of the field |
| DescMemo.FirstOfMissing | src/desc/query/memo.rs:76-87 | without an entry of the field the search reaches the end |
| DescMemo.FirstOfAt | src/desc/query/memo.rs:82-83 | the first entry that names the field is the one found |
| DescMemo.LookupFound | src/desc/query/memo.rs:80-83 | behind entries of other fields, an entry of the field gives the answer |
| DescMemo.ReadAll | src/desc/query/memo.rs:76-87 | a miss that runs out of entries answers `None` and has read them all |
| DescMemo.ReadOne | src/desc/query/memo.rs:76-85 | one entry read joins those seen; when it names the field it is the first of it and gives the answer |
| DescMemo.ReadOutcome | src/desc/query/memo.rs:76-87 | one pass of the miss loop ends on exhaustion or on the field with the lookup's answer, or goes on with one more entry seen |
| DescMemo.AtMostOncePrefix | src/desc/query/memo.rs:76-87 | a prefix of a file with the field at most once has it at most once |
| DescMemo.OnlyTheLast | src/desc/query/memo.rs:76-87 | with the field at most once, an entry of it at the end has none before it |
| DescMemo.CacheOfLookup | src/desc/query/memo.rs:76-85 | for a field heading at most one entry, its slot is occupied exactly when it has been read, with the entry's value |
| DescMemo.CacheOfLookupSnoc | src/desc/query/memo.rs:76-85 | the step of that invariant for one more entry |
| DescMemo.CacheOfKeeps | src/desc/query/memo.rs:120-125 | an occupied slot stays occupied |
| DescMemo.CacheOfCovers | src/desc/query/memo.rs:76-81 | every known field read has an occupied slot |
| DescMemo.MemoIsTransparent | src/desc/query/memo.rs:71-88 | for a field heading at most one entry, the cached querier answers what a stateless lookup over the whole text answers, whatever has been consumed |
| DescMemo.MemoQuerier.constructor | src/desc/query/memo.rs:17-23 | the whole text unread, every slot unoccupied, nothing remembered |
| DescMemo.MemoQuerier.NextEntry | src/desc/query/memo.rs:26-61 | the cursor's step computes the reference `next_entry` |
| DescMemo.MemoQuerier.Advance | src/desc/query/memo.rs:76-81 | one entry consumed and stored, or the text exhausted |
| DescMemo.MemoQuerier.ReadStep | src/desc/query/memo.rs:76-85 | one pass of the miss loop, with the invariant of the search |
| DescMemo.MemoQuerier.ReadUntil | src/desc/query/memo.rs:76-87 | the miss loop answers the first entry of the field among those unread and stores it |
| DescMemo.MemoQuerier.QueryRawTextMut | src/desc/query/memo.rs:71-88 | a hit answers the slot without moving the cursor; a miss answers the first unread entry of the field, caching every known field read |
| SrcinfoField.LookupIn | src/srcinfo/field.rs:95-96 | a name found in a list of fields is spelled as the text and is in the list; nothing found means no field of the list is spelled so |
| SrcinfoField.FieldNameFromStr | src/srcinfo/field.rs:95-167 | the catalog lookup finds a field spelled as the text, or nothing exactly when no field is spelled so |
| SrcinfoField.CatalogComplete | src/parse/srcinfo/data.rs:371-417 | the catalog lists every field |
| SrcinfoField.SpellingDetermines | src/srcinfo/field.rs:97-167 | no two fields share a spelling |
| SrcinfoField.CatalogEntry | src/srcinfo/field.rs:97-167 | round trip: every field is found again from its own spelling |
| SrcinfoField.SpellingHasNoUnderscore | src/srcinfo/field.rs:97-167 | no field spelling holds `_`, so every field survives the first-`_` split |
| SrcinfoField.ParseRaw | src/srcinfo/field/parse.rs:67-73 | `parse_raw` splits at the first `_`: no architecture exactly when there is no `_`, and then the name is the input; otherwise name, `_` and architecture spell the input; the name never holds `_` |
| SrcinfoField.ToParsed | src/srcinfo/field/parse.rs:85-96 | `Name` error exactly when the catalog has no such name; `Architecture` error exactly when a present suffix fails to convert, with its error; on success the field is spelled as the name and the architecture is present exactly when the suffix is, converted |
| SrcinfoField.Parse | src/srcinfo/field/parse.rs:26-31 | `Field::parse` is `parse_raw` then `to_parsed`: the parsed field spells the input, with `_` and the suffix when there is one |
| SrcinfoField.KnownField | src/srcinfo/query/forgetful.rs:80-90 | `known_field` keeps exactly the entries whose name is in the catalog, with the same name and architecture text |
| SrcinfoField.ParseRawWritten | src/srcinfo/field/parse.rs:67-73 | round trip: a name without `_`, optionally followed by `_` and a suffix, splits back into the two |
| SrcinfoField.ParseWritten | src/srcinfo/field/parse.rs:19-25 | round trip: every field written with an optional architecture (which may hold `_`, as `x86_64` does) parses back to that field and architecture |
| SrcinfoUtils.ParseLine | src/srcinfo/query/utils.rs:5-10 | `None` exactly when there is no `=`; the split is at the first `=`, the field text before it holds no `=` and is right-trimmed, and the value is a left-trimmed suffix of the line (so it may hold `=`) |
| SrcinfoUtils.ParseLineWritten | src/srcinfo/query/utils.rs:5-10 | round trip: a field written without `=`, padding, `=`, padding and a value splits back into that field and value |
| SrcinfoUtils.DropBlank | src/srcinfo/query/utils.rs:13-15 | filtering keeps exactly the lines that are neither empty nor start with `#` |
| SrcinfoUtils.NonBlankTrimmedLines | src/srcinfo/query/forgetful.rs:31 | the lines, trimmed, without the blank and comment lines |
| SrcinfoData.Push | src/parse/srcinfo/data.rs:250-253 | a multi-valued field gets the value appended and nothing else changes |
| SrcinfoData.AddValueToOption | src/parse/srcinfo.rs:84-99 | an empty slot is filled and nothing else changes; a filled slot keeps its value and reports `AlreadySet` with the old value for its section |
| SrcinfoData.BaseAdd | src/parse/srcinfo/data.rs:228-277 | `pkgbase` section `add`: `pkgname` without architecture is a header; suffixed entries of fields without architecture are dropped; lists are appended; single values fill once and then conflict |
| SrcinfoData.DerivativeAdd | src/parse/srcinfo/data.rs:328-366 | `pkgname` section `add`: the same, except that `pkgbase`-only fields are dropped and a conflict names the section |
| SrcinfoData.DerivativeAddKeepsShape | src/parse/srcinfo/data.rs:341-342 | a `pkgname` section never holds a `pkgbase`-only field |
| SrcinfoData.SectionItems | src/parse/srcinfo/data.rs:129-185 | the items of one section are all reported in that section |
| SrcinfoData.DerivativeItems | src/parse/srcinfo/data.rs:136-141 | the items of the `pkgname` sections are reported in those sections |
| SrcinfoData.QueryRawText | src/parse/srcinfo/data.rs:84-92 | a `pkgname` query lists the section names in insertion order, each in its own section |
| SrcinfoData.SectionItemsHold | src/parse/srcinfo/data.rs:129-185 | an item is reported for a section exactly when the section holds that value and architecture |
| SrcinfoData.DerivativeItemsHold | src/parse/srcinfo/data.rs:136-141 | an item is reported for a `pkgname` section exactly when that section holds it |
| SrcinfoData.QueryRawTextHolds | src/parse/srcinfo/data.rs:83-128 | a query yields exactly the values the base section holds and, for shared fields, the values each `pkgname` section holds itself |
| SrcinfoData.QueryBaseFirst | src/parse/srcinfo/data.rs:143-148 | items of the base section come before those of every `pkgname` section |
| SrcinfoParse.GetOrInsert | src/parse/srcinfo.rs:43-53 | the base section is always there; a new `pkgname` section is created empty and its name appended to the keys, an existing one is reused unchanged |
| SrcinfoParse.AddTo | src/parse/srcinfo.rs:66-71 | the entry goes to the section under the cursor; a header is reported with its name exactly for `pkgname` without architecture |
| SrcinfoParse.IgnoreUnknownField | src/parse/srcinfo.rs:162-177 | `Ok` exactly for an unknown field; every other issue becomes the matching error |
| SrcinfoParse.LineStep | src/parse/srcinfo.rs:206-226 | one pass of the loop keeps the data well formed and the cursor on an existing section |
| SrcinfoParse.Fold | src/parse/srcinfo.rs:206-228 | the loop keeps the data well formed |
| SrcinfoParse.ResultOf | src/parse/srcinfo.rs:200-228 | the outcome becomes a partial result with an error exactly when the handler stopped the loop |
| SrcinfoParse.AddLine | src/parse/srcinfo.rs:207-225 | the loop body computes the reference step, and on an issue leaves the data and cursor unchanged |
| SrcinfoParse.ParseWithIssues | src/parse/srcinfo.rs:186-229 | the loop computes the reference parse of the non-blank trimmed lines from the default data |
| SrcinfoParse.TryFromText | src/parse/srcinfo.rs:232-237 | `Ok` exactly when no issue stopped the parse, with the parsed data; otherwise the parse's error |
| SrcinfoParse.FoldAppend | src/parse/srcinfo.rs:206-226 | lines are read in order, and nothing after a stop is read |
| SrcinfoParse.EscalationStops | src/parse/srcinfo.rs:197-204 | an issue the handler refuses ends the parse with its error, keeping everything added before |
| SrcinfoParse.InvalidLineIsAnError | src/parse/srcinfo.rs:207-208 | under the default handler a line without `=` ends the parse with `InvalidLine` |
| SrcinfoParse.IgnorableStep | src/parse/srcinfo.rs:210-215 | an accepted unknown field or an empty value changes nothing |
| SrcinfoParse.IgnorableLineDropped | src/parse/srcinfo.rs:210-215 | removing such a line anywhere does not change the result |
| SrcinfoParse.UnknownFieldIgnored | src/parse/srcinfo.rs:181-183 | under the default handler an unknown field may be inserted anywhere without effect |
| SrcinfoParse.LineStepNames | src/parse/srcinfo.rs:218-221 | a line adds a section name only when it is a header whose name is new |
| SrcinfoParse.HeaderStepNext | src/parse/srcinfo.rs:218-221 | a header never raises an issue |
| SrcinfoParse.SectionsInFirstAppearanceOrder | src/parse/srcinfo.rs:26-31 | the `pkgname` sections are keyed in order of first appearance, a repeated header reopening its section |
| SrcinfoCache.GetAs | src/srcinfo/query/memo/cache.rs:80-89 | `get` at an index yields the item of the slot's list at that index, and nothing past its end |
| SrcinfoCache.Get | src/srcinfo/query/memo/cache.rs:80-89 | the same for the class of the field |
| SrcinfoCache.EmptyCacheIsEmpty | src/srcinfo/query/memo/cache.rs:68-77 | the default cache holds nothing for any field at any index |
| SrcinfoCache.Append | src/srcinfo/query/memo/cache.rs:47-49 | `push` appends to one list and leaves the others |
| SrcinfoCache.AddAsKeeps | src/srcinfo/query/memo/cache.rs:105-114 | adding to one field leaves every other field's slot as it was |
| SrcinfoCache.AddAsOther | src/srcinfo/query/memo/cache.rs:105-114 | adding to one field leaves every other field's items as they were |
| SrcinfoCache.OnlyNameIsHeader | src/srcinfo/query/memo/cache.rs:87 | only `pkgname` is kept as the list of section names |
| SrcinfoCache.AddOther | src/srcinfo/query/memo/cache.rs:105-114 | `add` changes the items of its own field only |
| SrcinfoCache.AddAsSame | src/srcinfo/query/memo/cache.rs:105-134 | an item the `extract_*` rule drops changes nothing; a `pkgbase`-only single value replaces the slot; any other kept item is appended, as the class reports it |
| SrcinfoCache.AddSame | src/srcinfo/query/memo/cache.rs:105-134 | the same for the class of the field |
| SrcinfoCache.AddExtends | src/srcinfo/query/memo/cache.rs:47-49 | for every field but the `pkgbase`-only single ones, `add` only extends the items |
| SrcinfoCache.SingleOverwrites | src/srcinfo/query/memo/cache.rs:26-28 | a second `pkgver` replaces the first instead of reporting a conflict |
| SrcinfoMemo.ClassifyInvalid | src/srcinfo/query/memo.rs:47-57 | a line stops `next_entry` exactly when, trimmed, it is neither blank nor a comment and has no `=`; an entry always has a value |
| SrcinfoMemo.Kinds | src/srcinfo/query/memo.rs:47 | one classification per line |
| SrcinfoMemo.ReplayAppend | src/srcinfo/query/memo.rs:59-63 | reading lines one after another is reading them together |
| SrcinfoMemo.ReplayExtends | src/srcinfo/query/memo.rs:63 | reading lines only extends the items of a field whose slot grows |
| SrcinfoMemo.NextEntry | src/srcinfo/query/memo.rs:46-65 | `next_entry` consumes at least one line of a non-empty text, and one for every entry |
| SrcinfoMemo.NextEntryReplays | src/srcinfo/query/memo.rs:46-65 | `next_entry` leaves the state of reading every consumed line, changes nothing when it finds nothing, and reports an entry in its section |
| SrcinfoMemo.InvalidLineStops | src/srcinfo/query/memo.rs:51 | a line without `=` makes `next_entry` return `None` with that line consumed |
| SrcinfoMemo.NextEntryStops | src/srcinfo/query/memo.rs:46-57 | on lines that all hold `=`, `next_entry` returns `None` only at the end |
| SrcinfoMemo.HeaderCarriesItsSection | src/srcinfo/query/memo.rs:58-62 | `pkgname` without architecture opens its section and is reported in it |
| SrcinfoMemo.QueryStep | src/srcinfo/query/memo.rs:88-103 | `QueryIter::next` only moves the cursor forward |
| SrcinfoMemo.QueryStepReplays | src/srcinfo/query/memo.rs:88-103 | a query step yields the cached item at its index after reading the consumed lines, and answers from the cache without reading when it can |
| SrcinfoMemo.QueryStepStops | src/srcinfo/query/memo.rs:99 | on lines that all hold `=`, a query gives up only at the end |
| SrcinfoMemo.QueryStepComplete | src/srcinfo/query/memo.rs:88-103 | one query step yields the item at its index of the fully read cache exactly when there is one |
| SrcinfoMemo.QueryAllComplete | src/srcinfo/query/memo.rs:106-113 | on lines that all hold `=`, a query of a growing field yields exactly the items of the fully read cache, in order |
| SrcinfoMemo.QueryAllFound | src/srcinfo/query/memo.rs:95-97 | one item found followed by the rest of the query |
| SrcinfoMemo.ChecksumStep | src/srcinfo/query/memo.rs:135-154 | `ChecksumIter::next` only moves the cursor forward |
| SrcinfoMemo.ChecksumStepReplays | src/srcinfo/query/memo.rs:135-154 | a checksum step leaves the state of reading every consumed line |
| SrcinfoMemo.ChecksumStepFinds | src/srcinfo/query/memo.rs:142-148 | a checksum found is the cached item just before the new index, of the current type, and the type never goes back |
| SrcinfoMemo.ChecksumStepStays | src/srcinfo/query/memo.rs:144-148 | a step answered from the cache moves the index by one and changes nothing else |
| SrcinfoMemo.ChecksumStepComplete | src/srcinfo/query/memo.rs:141-154 | one step yields the next checksum of the current type as the fully read cache holds it, or reads the whole text and moves to the next type |
| SrcinfoMemo.ChecksumAllGrouped | src/srcinfo/query/memo.rs:133-155 | the iterator yields the rest of the current type and then every later type's checksums |
| SrcinfoMemo.GroupedNext | src/srcinfo/query/memo.rs:144-148 | the case of that with an item of the current type left |
| SrcinfoMemo.GroupedLater | src/srcinfo/query/memo.rs:149-152 | the case of that with the current type used up |
| SrcinfoMemo.ChecksumsGroupedByType | src/srcinfo/query/memo.rs:157-160 | `checksums_mut` yields all MD5 checksums first, then SHA-1 and so on, whatever their order in the text |
| SrcinfoMemo.NextEntryFrom | src/srcinfo/query/memo.rs:46-65 | the loop over lines computes `next_entry` |
| SrcinfoMemo.QueryFrom | src/srcinfo/query/memo.rs:88-103 | the loop computes one query step |
| SrcinfoMemo.ChecksumFrom | src/srcinfo/query/memo.rs:135-154 | the loop computes one checksum step |
| SrcinfoMemo.MemoQuerier.constructor | src/srcinfo/query/memo.rs:26-32 | all lines unread, the base section current, the cache empty |
| SrcinfoMemo.MemoQuerier.NextEntryStep | src/srcinfo/query/memo.rs:46-65 | the querier's state moves as `next_entry` says |
| SrcinfoMemo.QueryIter.constructor | src/srcinfo/query/memo.rs:77-83 | a new query starts at index 0 |
| SrcinfoMemo.QueryIter.Next | src/srcinfo/query/memo.rs:88-103 | a call moves the querier as one query step and the index by one per item found |
| SrcinfoMemo.ChecksumIter.constructor | src/srcinfo/query/memo.rs:124-130 | a new iteration starts at the first type and index 0 |
| SrcinfoMemo.ChecksumIter.Next | src/srcinfo/query/memo.rs:135-154 | a call moves the querier, type and index as one checksum step |
| SrcinfoForgetful.ParsedPrefix | src/srcinfo/query/forgetful.rs:32 | `map_while(parse_line)`: every line before the first one without `=` is split, and that line ends the items |
| SrcinfoForgetful.StopsAtLineWithoutEquals | src/srcinfo/query/forgetful.rs:32 | nothing after a line without `=` is ever seen |
| SrcinfoForgetful.KnownEntries | src/srcinfo/query/forgetful.rs:33-34 | exactly the entries of known fields with non-empty values are kept |
| SrcinfoForgetful.SectionAfterCons | src/srcinfo/query/forgetful.rs:35 | scanning the first entry and then the rest is scanning them all |
| SrcinfoForgetful.ScanSections | src/srcinfo/query/forgetful.rs:93-101 | each entry is tagged with the section named by the last `pkgname` up to and including it, even one with an architecture suffix |
| SrcinfoForgetful.ItemsOf | src/srcinfo/query/forgetful.rs:40-50 | the items of a field are exactly those tagged entries of that field |
| SrcinfoForgetful.ItemsOfAppend | src/srcinfo/query/forgetful.rs:41-42 | filtering keeps source order |
| SrcinfoForgetful.QueryRawText | src/srcinfo/query/forgetful.rs:39-51 | a query yields exactly the known items of its field |
| SrcinfoForgetful.ChecksumsOf | src/srcinfo/query/forgetful.rs:63-70 | the checksums are exactly the entries of checksum fields |
| SrcinfoForgetful.ChecksumsOfAppend | src/srcinfo/query/forgetful.rs:63-70 | checksums keep source order |
| SrcinfoForgetful.QueryChecksums | src/srcinfo/query/forgetful.rs:62-71 | `checksums` yields exactly the checksum entries of the text |
| SrcinfoForgetful.SourceOrderNotTypeOrder | src/srcinfo/query/forgetful.rs:63-70 | a SHA-1 checksum before an MD5 checksum is yielded first, unlike the type-grouped engines |
| SrcinfoChecksums.Rank | src/srcinfo/query/checksums.rs:17-24 | the position of a type in `TYPES` |
| SrcinfoChecksums.RankOf | src/srcinfo/query/checksums.rs:17-24 | the type at a position has that position |
| SrcinfoChecksums.ToChecksumsHas | src/parse/srcinfo/checksums.rs:31-39 | a checksum of one type is reported exactly for each value of its field |
| SrcinfoChecksums.ChecksumsFromHas | src/parse/srcinfo/checksums.rs:43-46 | the checksums from a type on are those of its field and every later type's |
| SrcinfoChecksums.ParsedChecksumsHold | src/parse/srcinfo/checksums.rs:42-47 | `checksums` yields exactly the values of the checksum fields, base section and `pkgname` sections alike |
| SrcinfoChecksums.ChecksumFieldShared | src/srcinfo/query/checksums.rs:26-31 | checksum fields belong to every section and are not `pkgname` |
| SrcinfoChecksums.ToChecksumsOfType | src/parse/srcinfo/checksums.rs:31-39 | each checksum of one type carries that type |
| SrcinfoChecksums.RankFrom | src/parse/srcinfo/checksums.rs:43-46 | checksums from a type on are of that type or a later one |
| SrcinfoChecksums.GroupedAppend | src/parse/srcinfo/checksums.rs:43-46 | one type's checksums followed by later types' are grouped |
| SrcinfoChecksums.ChecksumsFromGrouped | src/parse/srcinfo/checksums.rs:43-46 | the checksums from a type on are grouped by type |
| SrcinfoChecksums.ParsedChecksumsGrouped | src/parse/srcinfo/checksums.rs:42-47 | `checksums` yields all MD5 checksums first, then SHA-1 and so on |
| SrcinfoChecksums.ToSectionChecksums | src/parse/srcinfo/checksums.rs:88-95 | one checksum per value of the section's field |
| SrcinfoChecksums.ToSectionChecksumsHas | src/parse/srcinfo/checksums.rs:74-86 | a section checksum is reported exactly for each value of its type's field |
| SrcinfoChecksums.ToSectionChecksumsAt | src/parse/srcinfo/checksums.rs:74-86 | the checksum at an index is the value at that index with its architecture |
| SrcinfoChecksums.SectionChecksumsFromHas | src/parse/srcinfo/checksums.rs:120-138 | the section's checksums from a type on are those of every such type's field |
| SrcinfoChecksums.SectionChecksumsHold | src/parse/srcinfo/checksums.rs:120-138 | a section's `checksums` yields exactly the values of its checksum fields |
| SrcinfoChecksums.SectionChecksumsIter.constructor | src/parse/srcinfo/checksums.rs:67-72 | the iterator starts at index 0 over the type's list |
| SrcinfoChecksums.SectionChecksumsIter.Next | src/parse/srcinfo/checksums.rs:74-86 | each call yields the next value of the list with its architecture and moves the index, and `None` exactly at the end |

## Left out

- Input and output, `include_str!` fixtures and the tests themselves. The tests'
  expected results are used only as examples in lemmas.
- Zero-copy borrowing. Values are substrings (`seq<char>`), and where the source
  compares slice addresses, offsets are integers.
- Byte offsets versus character offsets: the model counts characters. This
  agrees with the source for ASCII text.
- Rust iterators are modelled as the sequence they yield. The iterator objects
  that keep mutable state (`QueryIter`, `ChecksumIter`, `SectionChecksumsIter`)
  are classes.
- The issue handlers are `FnMut` closures in the source. Here they are pure
  functions from issue to result, so a handler cannot keep state of its own.
- `MemoQuerier::__has_cache`, `shrink_to_fit` and `shrink_cache_to_fit` are left
  out. They are test hooks or capacity hints with no observable effect on values.
- `debug_assert!` checks are not modelled. They are not part of release
  behaviour.
- The smart reference and lock forwarding impls (`Box`, `Rc`, `Arc`, `Mutex`, `RwLock`)
  are left out. They only delegate, for sharing and concurrency.
- The `DeriveQueryMut` wrappers, reuse-advice markers, map-abstraction traits and
  module re-exports are left out. They hold no logic.
- Older duplicate engines and value parsers are not modelled. This covers
  `src/parse/db.rs`, `src/db/query/eager.rs`, `src/query/forgetful.rs`,
  `src/query/memo.rs`, `src/srcinfo/query/eager.rs`,
  `src/srcinfo/query/derivative.rs`, the `depend*` value files,
  `src/value/hex.rs` and `src/value/md5_checksum.rs`. The core modelled here
  supersedes them.
- `UpstreamVersion.ParseComponent`: the numeric prefix is a `nat`. The unchecked
  `u64` overflow of the source (src/value/upstream_version.rs:59-60) is not
  modelled.
- `ParsedVersion::new` and `components` are the constructor and fields of the
  datatype `Version.ParsedVersion`. `Hash` is modelled as the hash input
  (`UpstreamVersion.HashInput`) rather than a hasher.
- The description of the upstream order says an absent numeric prefix is
  skipped. The code instead derives `Ord` on `Option`, so an absent prefix sorts
  before any present one. The model follows the code.
- `DescParse.ParseWithIssues` models the first-field loop as corrected, for any
  handler: an accepted `EmptyInput` completes with the empty record, and accepted
  leading non-header lines are counted in `processed_length`. As written, the
  first loops forever and the second slices the values from the wrong offsets
  (see Findings).
- `DescParse.ParseWithIssues` models the accepted-unknown-field branch as fixed:
  it advances past the unknown field, as src/parse/db.rs:71-76 does. The code as
  written never finishes (see Findings).
- `DescField.ParseRaw` is the corrected header tokenizer: it accepts ASCII
  digits as well as upper-case letters (see Findings). Every `desc` engine is
  built on it, so a line such as `%MD5SUM%`, `%SHA256SUM%` or any `%X1%` is read
  as a header and ends the value before it. In the source (src/field/parse.rs:78-83)
  such a line is refused by the tokenizer and is value text. The members built on
  it are listed below.
- `DescField.TryFrom`: `%MD5SUM%` gives the MD5 field; the source gives
  `RawField(NotAsciiUppercase(2, '5'))`.
- `DescCommon.LineTokens`, `DescCommon.FindField` and `DescCommon.QueryRawTextFrom`: a digit
  header is a header for the stateless querier.
- `DescParse.Tokens`, `DescParse.ParseNext` and `DescParse.ParseWithIssues`: a
  digit header is a header for the eager parser.
- `DescMemo.ScanHeader`, `DescMemo.NextEntrySpec` and `DescMemo.MemoQuerier`: a
  digit header is a header for the memo querier.
- `DescAsWritten.AsWrittenStep`: the as-written loop of the eager parser differs
  from the source only in its unknown-field branch and in this tokenizer.
- `Hex.NonHexEndsOnlyOneByte`: the hex decoder accepts some invalid characters.
  This is modelled as written, not as "all hex digits". A non-digit is consumed
  and ends only the current byte, so a clean decode does not imply that the input
  was all hex digits.
- The .SRCINFO engines are modelled as they differ, each as written:
  - Checksum order: the parsed record and the memo querier group checksums by
    type, while the forgetful querier keeps source order.
  - Single values: the memo cache overwrites a single value, while the parsed
    record reports a conflict and keeps the old value.
  - Section headers: the forgetful querier switches section on any `pkgname`
    and stops at the first line without `=`. The memo querier switches only on
    a `pkgname` without an architecture, and on a line without `=` its
    `next_entry` returns `None` after consuming that line.
- Re-running a query on a warm memo cache is covered by `SrcinfoMemo.QueryStepComplete`
  and `SrcinfoMemo.QueryAllComplete`: both state the answer in terms of the fully
  read cache, whatever the starting state. No separate two-run lemma is given.

## Findings

| source | as written | input that shows it | evidently intended | confidence | as-written member | corrected member |
|---|---|---|---|---|---|---|
| src/field/parse.rs:78-83 | the desc header tokenizer accepts only ASCII upper-case letters, yet the catalog (src/desc/field.rs:74-77) spells `%MD5SUM%` and `%SHA256SUM%` | `%MD5SUM%` is refused with `NotAsciiUppercase(2, '5')`, so its lines become part of the previous field's value | names with digits tokenize, so every catalog field can be read | high, not executed | DescField.ParseRawAsWritten, shown by DescField.Md5SumRejectedAsWritten and DescField.Sha256SumRejectedAsWritten | DescField.ParseRaw, with DescField.CatalogSpellingsAreHeaders |
| src/parse/desc.rs:133-135 | when the handler accepts an unknown field, `continue` skips the advance at lines 136-137 | `%THISFIELDISUNKNOWN%` followed by a value, under the default handler (tests/issue_30.rs:59-66) | the parse moves past the unknown field, as src/parse/db.rs:71-76 does | high, not executed | DescAsWritten.NeverFinishes, DescAsWritten.LivelockExhaustsLines and DescAsWritten.UnknownFirstHeaderLivelock | DescParse.ParseWithIssues, with DescParse.UnknownBlockInsertion |
| src/parse/desc.rs:112-113 | when the handler accepts `EmptyInput`, `continue` asks the exhausted line iterator again, forever | the empty text under a handler that returns `Ok` for `EmptyInput` | the parse ends with the empty record | high, not executed | DescAsWritten.EmptyInputNeverFinishes and DescAsWritten.EmptyTextNeverFinishes | DescParse.ParseWithIssues, with DescParse.AcceptedEmptyInputCompletes |
| src/parse/desc.rs:115-119 | when the handler accepts `FirstLineIsNotAField`, the skipped line is not added to `processed_length` (line 128 adds only the header line and the value) | `x\n%NAME%\nb\n` under a handler that returns `Ok` for `FirstLineIsNotAField`: the value of `NAME` is sliced from offset 7 and reads `%` instead of `b` | the skipped lines count towards the offset, so the value is `b` | high, not executed | DescAsWritten.SkippedLinesMisplaceValue, with DescAsWritten.FirstRunSkips | DescParse.ParseWithIssues, with DescParse.LeadingNonHeaderLinesIgnored |
