/**
 * Fields of the flat `desc` format: the `%NAME%` header tokenizer (`RawField::parse_raw`),
 * the conversion of a raw name into the field catalog (`RawField::to_parsed`) and the
 * combined `TryFrom<&str> for Field`.
 */
module DescField {
  import opened Wrappers

  /** The known fields of a `desc` file. */
  datatype FieldName =
    | FileName | Name | Base | Version | Description | Groups
    | CompressedSize | InstalledSize | Md5Checksum | Sha256Checksum
    | PgpSignature | Url | License | Architecture | BuildDate | Packager
    | Dependencies | CheckDependencies | MakeDependencies | OptionalDependencies
    | Provides | Conflicts | Replaces

  /** The spelling of each field between the `%` signs. */
  function NameStr(f: FieldName): string {
    match f
    case FileName => "FILENAME"
    case Name => "NAME"
    case Base => "BASE"
    case Version => "VERSION"
    case Description => "DESC"
    case Groups => "GROUPS"
    case CompressedSize => "CSIZE"
    case InstalledSize => "ISIZE"
    case Md5Checksum => "MD5SUM"
    case Sha256Checksum => "SHA256SUM"
    case PgpSignature => "PGPSIG"
    case Url => "URL"
    case License => "LICENSE"
    case Architecture => "ARCH"
    case BuildDate => "BUILDDATE"
    case Packager => "PACKAGER"
    case Dependencies => "DEPENDS"
    case CheckDependencies => "CHECKDEPENDS"
    case MakeDependencies => "MAKEDEPENDS"
    case OptionalDependencies => "OPTDEPENDS"
    case Provides => "PROVIDES"
    case Conflicts => "CONFLICTS"
    case Replaces => "REPLACES"
  }

  /** The number of known fields. */
  const FieldCount: nat := 23

  /** The catalog: the known fields in declaration order. */
  const Catalog: seq<FieldName> :=
    [FileName, Name, Base, Version, Description, Groups, CompressedSize, InstalledSize,
     Md5Checksum, Sha256Checksum, PgpSignature, Url, License, Architecture, BuildDate,
     Packager, Dependencies, CheckDependencies, MakeDependencies, OptionalDependencies,
     Provides, Conflicts, Replaces]

  /** The field at position `i` of the catalog. */
  function CatalogAt(i: nat): FieldName
    requires i < FieldCount
  {
    Catalog[i]
  }

  /** The position of a field in the catalog. */
  function CatalogIndex(f: FieldName): (i: nat)
    ensures i < FieldCount
  {
    match f
    case FileName => 0
    case Name => 1
    case Base => 2
    case Version => 3
    case Description => 4
    case Groups => 5
    case CompressedSize => 6
    case InstalledSize => 7
    case Md5Checksum => 8
    case Sha256Checksum => 9
    case PgpSignature => 10
    case Url => 11
    case License => 12
    case Architecture => 13
    case BuildDate => 14
    case Packager => 15
    case Dependencies => 16
    case CheckDependencies => 17
    case MakeDependencies => 18
    case OptionalDependencies => 19
    case Provides => 20
    case Conflicts => 21
    case Replaces => 22
  }

  /** Every field is in the catalog, at its position. */
  lemma CatalogAtIndex(f: FieldName)
    ensures CatalogAt(CatalogIndex(f)) == f
  {
  }

  /** The first field of the catalog from position `i` on that is spelled `s`. */
  function LookupFrom(s: string, i: nat): (r: Option<FieldName>)
    decreases FieldCount - i
  {
    if i >= FieldCount then None
    else if NameStr(CatalogAt(i)) == s then Some(CatalogAt(i))
    else LookupFrom(s, i + 1)
  }

  /** A field found from position `i` on is spelled `s`. */
  lemma {:induction false} LookupFromSpelling(s: string, i: nat)
    ensures LookupFrom(s, i).Some? ==> NameStr(LookupFrom(s, i).value) == s
    decreases FieldCount - i
  {
    if i < FieldCount && NameStr(CatalogAt(i)) != s {
      LookupFromSpelling(s, i + 1);
    }
  }

  /** A failed lookup has compared `s` with every spelling from position `i` on. */
  lemma {:induction false} LookupFromMisses(s: string, i: nat, j: nat)
    requires i <= j < FieldCount && LookupFrom(s, i).None?
    ensures NameStr(CatalogAt(j)) != s
    decreases j - i
  {
    if i < j {
      LookupFromMisses(s, i + 1, j);
    }
  }

  /** The catalog lookup from a spelling to a field (`FromStr`), partial on strings. */
  function FieldNameFromStr(s: string): (r: Option<FieldName>)
  {
    LookupFrom(s, 0)
  }

  /** The lookup fails exactly on strings that spell no field. */
  lemma FieldNameFromStrMisses(s: string)
    ensures FieldNameFromStr(s).None? <==> forall f :: NameStr(f) != s
  {
    LookupFromSpelling(s, 0);
    if FieldNameFromStr(s).None? {
      forall f ensures NameStr(f) != s {
        CatalogAtIndex(f);
        LookupFromMisses(s, 0, CatalogIndex(f));
      }
    }
  }

  /** Distinct fields are spelled differently. */
  lemma SpellingDetermines(f: FieldName, g: FieldName)
    requires NameStr(f) == NameStr(g)
    ensures f == g
  {
    match f
    case FileName =>
    case Name =>
    case Base =>
    case Version =>
    case Description =>
    case Groups =>
    case CompressedSize =>
    case InstalledSize =>
    case Md5Checksum =>
    case Sha256Checksum =>
    case PgpSignature =>
    case Url =>
    case License =>
    case Architecture =>
    case BuildDate =>
    case Packager =>
    case Dependencies =>
    case CheckDependencies =>
    case MakeDependencies =>
    case OptionalDependencies =>
    case Provides =>
    case Conflicts =>
    case Replaces =>
  }

  /** A field whose name has not been looked up in the catalog. */
  datatype RawField = RawField(name: string)

  /** Error of `RawField::parse_raw`. */
  datatype ParseRawFieldError =
    | IncorrectStartingCharacter
    | IncorrectEndingCharacter
    | Empty
    | NotAsciiUppercase(index: nat, character: char)

  /** Error of the catalog lookup (strum's `VariantNotFound`). */
  datatype ParseNameError = VariantNotFound

  /** Error of `TryFrom<&str> for Field`. */
  datatype ParseFieldError =
    | RawFieldError(raw: ParseRawFieldError)
    | NameError(name: ParseNameError)

  predicate IsAsciiUppercase(c: char) {
    'A' <= c <= 'Z'
  }

  predicate IsAsciiDigit(c: char) {
    '0' <= c <= '9'
  }

  /**
   * The characters accepted between the `%` signs. The source accepts only ASCII uppercase
   * letters, which rejects its own catalog spellings `MD5SUM` and `SHA256SUM`; this model
   * also accepts ASCII digits (see `ParseRawAsWritten` and `CatalogSpellingsAreHeaders`).
   */
  predicate IsNameChar(c: char) {
    IsAsciiUppercase(c) || IsAsciiDigit(c)
  }

  /** A well-formed field name: non-empty and made of characters accepted by `p`. */
  predicate IsFieldNameBy(name: string, p: char -> bool) {
    name != [] && forall c :: c in name ==> p(c)
  }

  predicate IsFieldName(name: string) {
    IsFieldNameBy(name, IsNameChar)
  }

  /** The display format of a field, `%{name}%`. */
  function Display(f: RawField): string {
    "%" + f.name + "%"
  }

  /** Index of the first character rejected by `p`. */
  function FindRejected(s: string, p: char -> bool): (r: Option<nat>)
    ensures r.Some? ==> r.value < |s|
    decreases |s|
  {
    if s == [] then None
    else if !p(s[0]) then Some(0)
    else match FindRejected(s[1..], p)
      case None => None
      case Some(k) => Some(k + 1)
  }

  /** The index found is the first rejected character; without one, every character is accepted. */
  lemma {:induction false} FindRejectedFirst(s: string, p: char -> bool)
    ensures var r := FindRejected(s, p);
      r.Some? ==> !p(s[r.value]) && forall i :: 0 <= i < r.value ==> p(s[i])
    ensures FindRejected(s, p).None? <==> forall c :: c in s ==> p(c)
    decreases |s|
  {
    if s != [] && p(s[0]) {
      FindRejectedFirst(s[1..], p);
      assert forall c :: c in s ==> c == s[0] || c in s[1..];
    }
  }

  /**
   * `RawField::parse_raw` with the interior characters accepted by `p`. The index reported by
   * `NotAsciiUppercase` is a byte index in the source; every character before it is ASCII,
   * so it equals the character index used here.
   */
  function ParseRawBy(input: string, p: char -> bool): Result<RawField, ParseRawFieldError>
  {
    if input == [] || input[0] != '%' then Err(IncorrectStartingCharacter)
    else
      var rest := input[1..];
      if rest == [] || rest[|rest| - 1] != '%' then Err(IncorrectEndingCharacter)
      else
        var name := rest[..|rest| - 1];
        assert name == input[1..|input| - 1];
        if name == [] then Err(Empty)
        else match FindRejected(name, p)
          case Some(i) => Err(NotAsciiUppercase(i, name[i]))
          case None =>
            assert input == "%" + name + "%";
            Ok(RawField(name))
  }

  /**
   * What `parse_raw` promises: each error names the first defect of the input, and the
   * input is accepted exactly when it is `%`, a well-formed name, `%`; the accepted field
   * displays as the input.
   */
  lemma ParseRawByCases(input: string, p: char -> bool)
    ensures var r := ParseRawBy(input, p);
      r == Err(IncorrectStartingCharacter) <==> input == [] || input[0] != '%'
    ensures var r := ParseRawBy(input, p);
      r == Err(IncorrectEndingCharacter) <==>
        input != [] && input[0] == '%' && (|input| == 1 || input[|input| - 1] != '%')
    ensures var r := ParseRawBy(input, p);
      r == Err(Empty) <==> input == "%%"
    ensures var r := ParseRawBy(input, p);
      r.Err? && r.error.NotAsciiUppercase? ==>
        var i := r.error.index;
        i + 2 < |input| && input[i + 1] == r.error.character && !p(input[i + 1])
        && forall j :: 1 <= j <= i ==> p(input[j])
    ensures var r := ParseRawBy(input, p);
      r.Ok? <==>
        |input| >= 3 && input[0] == '%' && input[|input| - 1] == '%'
        && IsFieldNameBy(input[1..|input| - 1], p)
    ensures var r := ParseRawBy(input, p);
      r.Ok? ==> IsFieldNameBy(r.value.name, p) && Display(r.value) == input
  {
    if input != [] && input[0] == '%' && |input| >= 2 && input[|input| - 1] == '%' {
      assert input[1..][..|input| - 2] == input[1..|input| - 1];
      FindRejectedFirst(input[1..|input| - 1], p);
    }
  }

  /** `RawField::parse_raw` exactly as written: only ASCII uppercase letters between the `%` signs. */
  function ParseRawAsWritten(input: string): Result<RawField, ParseRawFieldError> {
    ParseRawBy(input, IsAsciiUppercase)
  }

  /** The header tokenizer used by the rest of the model: ASCII uppercase letters and digits. */
  function ParseRaw(input: string): Result<RawField, ParseRawFieldError> {
    ParseRawBy(input, IsNameChar)
  }

  /** `RawField::to_parsed`: look the raw name up in the catalog. */
  function ToParsed(raw: RawField): (r: Result<FieldName, ParseNameError>)
  {
    match FieldNameFromStr(raw.name)
    case Some(f) => Ok(f)
    case None => Err(VariantNotFound)
  }

  /** `to_parsed` fails exactly on names that spell no field. */
  lemma ToParsedFails(raw: RawField)
    ensures ToParsed(raw).Err? <==> forall f :: NameStr(f) != raw.name
  {
    FieldNameFromStrMisses(raw.name);
  }

  /** A name that `to_parsed` accepts is the spelling of the field it gives. */
  lemma ToParsedSpelling(raw: RawField)
    ensures ToParsed(raw).Ok? ==> NameStr(ToParsed(raw).value) == raw.name
  {
    LookupFromSpelling(raw.name, 0);
  }

  /** `TryFrom<&str> for Field`: tokenize, then look the name up. */
  function TryFrom(value: string): (r: Result<FieldName, ParseFieldError>)
    ensures r.Err? && r.error.RawFieldError? <==> ParseRaw(value).Err?
    ensures r.Err? && r.error.RawFieldError? ==> r.error.raw == ParseRaw(value).error
    ensures r.Ok? ==> value == Display(RawField(NameStr(r.value)))
    ensures r.Err? && r.error.NameError? ==> forall f :: value != Display(RawField(NameStr(f)))
  {
    ParseRawByCases(value, IsNameChar);
    match ParseRaw(value)
    case Err(e) => Err(RawFieldError(e))
    case Ok(raw) =>
      match ToParsed(raw)
      case Err(e) =>
        ToParsedFails(raw);
        assert forall n :: value == Display(RawField(n)) ==> n == raw.name by {
          forall n | value == Display(RawField(n)) ensures n == raw.name {
            assert n == value[1..|value| - 1];
          }
        }
        Err(NameError(e))
      case Ok(f) =>
        ToParsedSpelling(raw);
        Ok(f)
  }

  /** The catalog spellings and the lookup are mutually inverse. */
  lemma CatalogEntry(f: FieldName)
    ensures FieldNameFromStr(NameStr(f)) == Some(f)
  {
    var r := FieldNameFromStr(NameStr(f));
    FieldNameFromStrMisses(NameStr(f));
    LookupFromSpelling(NameStr(f), 0);
    SpellingDetermines(r.value, f);
  }

  /** Every catalog spelling is a well-formed field name. */
  lemma SpellingIsFieldName(f: FieldName)
    ensures IsFieldName(NameStr(f))
  {
    match f
    case FileName =>
    case Name =>
    case Base =>
    case Version =>
    case Description =>
    case Groups =>
    case CompressedSize =>
    case InstalledSize =>
    case Md5Checksum =>
    case Sha256Checksum =>
    case PgpSignature =>
    case Url =>
    case License =>
    case Architecture =>
    case BuildDate =>
    case Packager =>
    case Dependencies =>
    case CheckDependencies =>
    case MakeDependencies =>
    case OptionalDependencies =>
    case Provides =>
    case Conflicts =>
    case Replaces =>
  }

  /** Round trip from the name side: `parse_raw("%" + N + "%")` is `N` for every well-formed `N`. */
  lemma ParseRawDisplay(n: string)
    requires IsFieldName(n)
    ensures ParseRaw(Display(RawField(n))) == Ok(RawField(n))
  {
    var s := Display(RawField(n));
    assert s[1..|s| - 1] == n;
    ParseRawByCases(s, IsNameChar);
  }

  /**
   * As written, the tokenizer rejects the header of a field its own catalog lists: `%MD5SUM%`
   * fails at the digit, so a `desc` text can never set that field.
   */
  lemma Md5SumRejectedAsWritten()
    ensures NameStr(Md5Checksum) == "MD5SUM"
    ensures ParseRawAsWritten("%MD5SUM%") == Err(NotAsciiUppercase(2, '5'))
  {
    assert "MD5SUM"[1..] == "D5SUM" && "D5SUM"[1..] == "5SUM";
    assert FindRejected("5SUM", IsAsciiUppercase) == Some(0);
    assert FindRejected("D5SUM", IsAsciiUppercase) == Some(1);
    assert FindRejected("MD5SUM", IsAsciiUppercase) == Some(2);
    assert "%MD5SUM%"[1..][..6] == "MD5SUM";
  }

  /** The same holds for `%SHA256SUM%`, rejected at its first digit. */
  lemma Sha256SumRejectedAsWritten()
    ensures NameStr(Sha256Checksum) == "SHA256SUM"
    ensures ParseRawAsWritten("%SHA256SUM%") == Err(NotAsciiUppercase(3, '2'))
  {
    assert "SHA256SUM"[1..] == "HA256SUM" && "HA256SUM"[1..] == "A256SUM" && "A256SUM"[1..] == "256SUM";
    assert FindRejected("256SUM", IsAsciiUppercase) == Some(0);
    assert FindRejected("A256SUM", IsAsciiUppercase) == Some(1);
    assert FindRejected("HA256SUM", IsAsciiUppercase) == Some(2);
    assert FindRejected("SHA256SUM", IsAsciiUppercase) == Some(3);
    assert "%SHA256SUM%"[1..][..9] == "SHA256SUM";
  }

  /** With digits accepted, the header of every catalog field tokenizes to its own spelling. */
  lemma {:induction false} CatalogSpellingsAreHeaders(f: FieldName)
    ensures ParseRaw(Display(RawField(NameStr(f)))) == Ok(RawField(NameStr(f)))
    ensures TryFrom(Display(RawField(NameStr(f)))) == Ok(f)
  {
    CatalogEntry(f);
    SpellingIsFieldName(f);
    ParseRawDisplay(NameStr(f));
  }
}
