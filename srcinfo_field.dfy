/**
 * Fields of the sectioned `.SRCINFO` format: the catalog of field names with the class
 * of each field, the `name[_arch]` splitter (`RawField::parse_raw`), the conversion into
 * the catalog (`RawField::to_parsed`) and `Field::parse`.
 */
module SrcinfoField {
  import opened Wrappers
  import opened Text

  /** The known fields of a `.SRCINFO` file. */
  datatype FieldName =
    | Base | Name
    | Epoch | Release | ValidPgpKeys | Version
    | Architecture | Backup | ChangeLog | Description | Groups | InstallScript
    | License | NoExtract | Options | Source | Url
    | Dependencies | CheckDependencies | MakeDependencies | OptionalDependencies
    | Provides | Conflicts | Replaces
    | Md5Checksums | Sha1Checksums | Sha224Checksums | Sha256Checksums
    | Sha384Checksums | Sha512Checksums | Blake2bChecksums

  /** The spelling of each field before the optional `_arch` suffix. */
  function NameStr(f: FieldName): string {
    match f
    case Base => "pkgbase"
    case Name => "pkgname"
    case Epoch => "epoch"
    case Release => "pkgrel"
    case ValidPgpKeys => "validpgpkeys"
    case Version => "pkgver"
    case Architecture => "arch"
    case Backup => "backup"
    case ChangeLog => "changelog"
    case Description => "pkgdesc"
    case Groups => "groups"
    case InstallScript => "install"
    case License => "license"
    case NoExtract => "noextract"
    case Options => "options"
    case Source => "source"
    case Url => "url"
    case Dependencies => "depends"
    case CheckDependencies => "checkdepends"
    case MakeDependencies => "makedepends"
    case OptionalDependencies => "optdepends"
    case Provides => "provides"
    case Conflicts => "conflicts"
    case Replaces => "replaces"
    case Md5Checksums => "md5sums"
    case Sha1Checksums => "sha1sums"
    case Sha224Checksums => "sha224sums"
    case Sha256Checksums => "sha256sums"
    case Sha384Checksums => "sha384sums"
    case Sha512Checksums => "sha512sums"
    case Blake2bChecksums => "b2sums"
  }

  /** Every field, in declaration order. */
  const Catalog: seq<FieldName> :=
    [Base, Name, Epoch, Release, ValidPgpKeys, Version, Architecture, Backup, ChangeLog,
     Description, Groups, InstallScript, License, NoExtract, Options, Source, Url,
     Dependencies, CheckDependencies, MakeDependencies, OptionalDependencies, Provides,
     Conflicts, Replaces, Md5Checksums, Sha1Checksums, Sha224Checksums, Sha256Checksums,
     Sha384Checksums, Sha512Checksums, Blake2bChecksums]

  /** The first field of `fs` spelled `s`. */
  function LookupIn(s: string, fs: seq<FieldName>): (r: Option<FieldName>)
    ensures r.Some? ==> NameStr(r.value) == s && r.value in fs
    ensures r.None? ==> forall f :: f in fs ==> NameStr(f) != s
  {
    if fs == [] then None
    else if NameStr(fs[0]) == s then Some(fs[0])
    else LookupIn(s, fs[1..])
  }

  /** The catalog lookup from a spelling to a field (`FromStr`), partial on strings. */
  function FieldNameFromStr(s: string): (r: Option<FieldName>)
    ensures r.Some? ==> NameStr(r.value) == s
    ensures r.None? ==> forall f :: NameStr(f) != s
  {
    CatalogComplete();
    LookupIn(s, Catalog)
  }

  lemma CatalogComplete()
    ensures forall f :: f in Catalog
  {
    forall f ensures f in Catalog {
      CatalogIndex(f);
    }
  }

  lemma CatalogIndex(f: FieldName)
    ensures f in Catalog
  {
    match f
    case Base => assert Catalog[0] == Base;
    case Name => assert Catalog[1] == Name;
    case Epoch => assert Catalog[2] == Epoch;
    case Release => assert Catalog[3] == Release;
    case ValidPgpKeys => assert Catalog[4] == ValidPgpKeys;
    case Version => assert Catalog[5] == Version;
    case Architecture => assert Catalog[6] == Architecture;
    case Backup => assert Catalog[7] == Backup;
    case ChangeLog => assert Catalog[8] == ChangeLog;
    case Description => assert Catalog[9] == Description;
    case Groups => assert Catalog[10] == Groups;
    case InstallScript => assert Catalog[11] == InstallScript;
    case License => assert Catalog[12] == License;
    case NoExtract => assert Catalog[13] == NoExtract;
    case Options => assert Catalog[14] == Options;
    case Source => assert Catalog[15] == Source;
    case Url => assert Catalog[16] == Url;
    case Dependencies => assert Catalog[17] == Dependencies;
    case CheckDependencies => assert Catalog[18] == CheckDependencies;
    case MakeDependencies => assert Catalog[19] == MakeDependencies;
    case OptionalDependencies => assert Catalog[20] == OptionalDependencies;
    case Provides => assert Catalog[21] == Provides;
    case Conflicts => assert Catalog[22] == Conflicts;
    case Replaces => assert Catalog[23] == Replaces;
    case Md5Checksums => assert Catalog[24] == Md5Checksums;
    case Sha1Checksums => assert Catalog[25] == Sha1Checksums;
    case Sha224Checksums => assert Catalog[26] == Sha224Checksums;
    case Sha256Checksums => assert Catalog[27] == Sha256Checksums;
    case Sha384Checksums => assert Catalog[28] == Sha384Checksums;
    case Sha512Checksums => assert Catalog[29] == Sha512Checksums;
    case Blake2bChecksums => assert Catalog[30] == Blake2bChecksums;
  }

  /** Distinct fields are spelled differently. */
  lemma SpellingDetermines(f: FieldName, g: FieldName)
    requires NameStr(f) == NameStr(g)
    ensures f == g
  {
    var n := |NameStr(f)|;
    if n <= 5 {
      ShortSpellingDetermines(f, g);
    } else if n == 6 {
      SixLetterDetermines(f, g);
    } else if n == 7 {
      SevenLetterDetermines(f, g);
    } else if n <= 9 {
      MidSpellingDetermines(f, g);
    } else if n == 10 {
      TenLetterDetermines(f, g);
    } else {
      LongSpellingDetermines(f, g);
    }
  }

  lemma ShortSpellingDetermines(f: FieldName, g: FieldName)
    requires NameStr(f) == NameStr(g) && |NameStr(f)| <= 5
    ensures f == g
  {
    match f
    case Epoch =>
    case Architecture =>
    case Url =>
  }

  lemma SixLetterDetermines(f: FieldName, g: FieldName)
    requires NameStr(f) == NameStr(g) && |NameStr(f)| == 6
    ensures f == g
  {
    match f
    case Release =>
    case Version =>
    case Backup =>
    case Groups =>
    case Source =>
    case Blake2bChecksums =>
  }

  lemma SevenLetterDetermines(f: FieldName, g: FieldName)
    requires NameStr(f) == NameStr(g) && |NameStr(f)| == 7
    ensures f == g
  {
    match f
    case Base =>
    case Name =>
    case Description =>
    case InstallScript =>
    case License =>
    case Options =>
    case Dependencies =>
    case Md5Checksums =>
  }

  lemma MidSpellingDetermines(f: FieldName, g: FieldName)
    requires NameStr(f) == NameStr(g) && 8 <= |NameStr(f)| <= 9
    ensures f == g
  {
    match f
    case ChangeLog =>
    case NoExtract =>
    case Provides =>
    case Conflicts =>
    case Replaces =>
    case Sha1Checksums =>
  }

  lemma TenLetterDetermines(f: FieldName, g: FieldName)
    requires NameStr(f) == NameStr(g) && |NameStr(f)| == 10
    ensures f == g
  {
    match f
    case OptionalDependencies =>
    case Sha224Checksums =>
    case Sha256Checksums =>
    case Sha384Checksums =>
    case Sha512Checksums =>
  }

  lemma LongSpellingDetermines(f: FieldName, g: FieldName)
    requires NameStr(f) == NameStr(g) && |NameStr(f)| >= 11
    ensures f == g
  {
    match f
    case ValidPgpKeys =>
    case CheckDependencies =>
    case MakeDependencies =>
  }

  /** How a field is stored: the groups of the section data and of the memo cache. */
  datatype FieldClass =
    | Header             // `pkgname`, which opens a derivative section
    | BaseSingle         // one value, `pkgbase` section only
    | BaseMulti          // many values, `pkgbase` section only
    | SharedSingle       // one value per section
    | SharedMultiNoArch  // many values per section, no architecture suffix
    | SharedMultiArch    // many values per section, each with an optional architecture

  function ClassOf(f: FieldName): FieldClass {
    match f
    case Name => Header
    case Base | Epoch | Release | Version => BaseSingle
    case ValidPgpKeys => BaseMulti
    case Description | ChangeLog | InstallScript | Url => SharedSingle
    case Architecture | Backup | Groups | License | NoExtract | Options => SharedMultiNoArch
    case _ => SharedMultiArch
  }

  /** A field whose name has not been looked up in the catalog. */
  datatype RawField = RawField(name: string, architecture: Option<string>)

  /** A field whose name is in the catalog; the architecture is converted into `A`. */
  datatype ParsedField<A> = ParsedField(name: FieldName, architecture: Option<A>)

  /** Error of `RawField::to_parsed`. */
  datatype ParseFieldError<E> = NameError | ArchitectureError(error: E)

  /** `RawField::parse_raw`: split at the first `_` into a name and an architecture. */
  function ParseRaw(input: string): (r: RawField)
    ensures r.architecture.None? <==> '_' !in input
    ensures r.architecture.None? ==> r.name == input
    ensures r.architecture.Some? ==> r.name + "_" + r.architecture.value == input
    ensures '_' !in r.name
    ensures Written(r) == input
  {
    match SplitOnce(input, '_')
    case Some((name, architecture)) => RawField(name, Some(architecture))
    case None => RawField(input, None)
  }

  /**
   * `RawField::to_parsed`: look the name up in the catalog, then convert the architecture,
   * when there is one, with `convert`.
   */
  function ToParsed<A, E>(raw: RawField, convert: string -> Result<A, E>): (r: Result<ParsedField<A>, ParseFieldError<E>>)
    ensures r == Err(NameError) <==> FieldNameFromStr(raw.name).None?
    ensures r.Err? && r.error.ArchitectureError? <==>
      FieldNameFromStr(raw.name).Some? && raw.architecture.Some? && convert(raw.architecture.value).Err?
    ensures r.Err? && r.error.ArchitectureError? ==> r.error.error == convert(raw.architecture.value).error
    ensures r.Ok? ==> NameStr(r.value.name) == raw.name
    ensures r.Ok? ==> (r.value.architecture.None? <==> raw.architecture.None?)
    ensures r.Ok? && raw.architecture.Some? ==> convert(raw.architecture.value) == Ok(r.value.architecture.value)
  {
    match FieldNameFromStr(raw.name)
    case None => Err(NameError)
    case Some(name) =>
      match raw.architecture
      case None => Ok(ParsedField(name, None))
      case Some(a) =>
        match convert(a)
        case Err(e) => Err(ArchitectureError(e))
        case Ok(arch) => Ok(ParsedField(name, Some(arch)))
  }

  /** `Field::parse`: `parse_raw` followed by `to_parsed`. */
  function Parse<A, E>(input: string, convert: string -> Result<A, E>): (r: Result<ParsedField<A>, ParseFieldError<E>>)
    ensures r.Ok? && r.value.architecture.None? ==> input == NameStr(r.value.name)
    ensures r.Ok? && r.value.architecture.Some? ==>
      exists a :: input == NameStr(r.value.name) + "_" + a && convert(a) == Ok(r.value.architecture.value)
    ensures r == Err(NameError) <==> FieldNameFromStr(ParseRaw(input).name).None?
  {
    ToParsed(ParseRaw(input), convert)
  }

  /** The architecture conversion used by every engine: keep the suffix text as it is. */
  function KeepArchitecture(a: string): Result<string, ()> {
    Ok(a)
  }

  /** `to_parsed::<FieldName, &str>`, whose only possible failure is an unknown name. */
  function KnownField(raw: RawField): (r: Option<ParsedField<string>>)
    ensures r.Some? <==> FieldNameFromStr(raw.name).Some?
    ensures r.Some? ==> NameStr(r.value.name) == raw.name && r.value.architecture == raw.architecture
  {
    match ToParsed(raw, KeepArchitecture)
    case Ok(f) => Some(f)
    case Err(_) => None
  }

  /** The catalog spellings and the lookup are mutually inverse. */
  lemma CatalogEntry(f: FieldName)
    ensures FieldNameFromStr(NameStr(f)) == Some(f)
  {
    var r := FieldNameFromStr(NameStr(f));
    SpellingDetermines(r.value, f);
  }

  /** No spelling contains `_`, the separator of the architecture suffix. */
  lemma SpellingHasNoUnderscore(f: FieldName)
    ensures '_' !in NameStr(f)
  {
    var n := |NameStr(f)|;
    if n <= 5 {
      ShortSpellingHasNoUnderscore(f);
    } else if n == 6 {
      SixLetterHasNoUnderscore(f);
    } else if n == 7 {
      SevenLetterHasNoUnderscore(f);
    } else if n <= 9 {
      MidSpellingHasNoUnderscore(f);
    } else if n == 10 {
      TenLetterHasNoUnderscore(f);
    } else {
      LongSpellingHasNoUnderscore(f);
    }
  }

  lemma ShortSpellingHasNoUnderscore(f: FieldName)
    requires |NameStr(f)| <= 5
    ensures '_' !in NameStr(f)
  {
    match f
    case Epoch =>
    case Architecture =>
    case Url =>
  }

  lemma SixLetterHasNoUnderscore(f: FieldName)
    requires |NameStr(f)| == 6
    ensures '_' !in NameStr(f)
  {
    match f
    case Release =>
    case Version =>
    case Backup =>
    case Groups =>
    case Source =>
    case Blake2bChecksums =>
  }

  lemma SevenLetterHasNoUnderscore(f: FieldName)
    requires |NameStr(f)| == 7
    ensures '_' !in NameStr(f)
  {
    match f
    case Base =>
    case Name =>
    case Description =>
    case InstallScript =>
    case License =>
    case Options =>
    case Dependencies =>
    case Md5Checksums =>
  }

  lemma MidSpellingHasNoUnderscore(f: FieldName)
    requires 8 <= |NameStr(f)| <= 9
    ensures '_' !in NameStr(f)
  {
    match f
    case ChangeLog =>
    case NoExtract =>
    case Provides =>
    case Conflicts =>
    case Replaces =>
    case Sha1Checksums =>
  }

  lemma TenLetterHasNoUnderscore(f: FieldName)
    requires |NameStr(f)| == 10
    ensures '_' !in NameStr(f)
  {
    match f
    case OptionalDependencies =>
    case Sha224Checksums =>
    case Sha256Checksums =>
    case Sha384Checksums =>
    case Sha512Checksums =>
  }

  lemma LongSpellingHasNoUnderscore(f: FieldName)
    requires |NameStr(f)| >= 11
    ensures '_' !in NameStr(f)
  {
    match f
    case ValidPgpKeys =>
    case CheckDependencies =>
    case MakeDependencies =>
  }

  /** The text a raw field was read from: the name, then `_` and the architecture if any. */
  function Written(raw: RawField): string {
    match raw.architecture
    case None => raw.name
    case Some(a) => raw.name + "_" + a
  }

  /** A name without `_`, optionally followed by `_` and a suffix, splits back into the two. */
  lemma ParseRawWritten(raw: RawField)
    requires '_' !in raw.name
    ensures ParseRaw(Written(raw)) == raw
  {
    if raw.architecture.Some? {
      SplitOnceAt(raw.name, '_', raw.architecture.value);
    }
  }

  /**
   * Round trip from the field side: a field written as its spelling, optionally followed by
   * `_` and an architecture (which may itself contain `_`, as in `x86_64`), parses back.
   */
  lemma {:induction false} ParseWritten(f: FieldName, arch: Option<string>)
    ensures var input := if arch.Some? then NameStr(f) + "_" + arch.value else NameStr(f);
      Parse(input, KeepArchitecture) == Ok(ParsedField(f, arch))
  {
    CatalogEntry(f);
    SpellingHasNoUnderscore(f);
    ParseRawWritten(RawField(NameStr(f), arch));
  }
}
