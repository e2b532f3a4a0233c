/** The record and state shapes of the audit application (types.ts). */
module Types {
  import opened Strings

  datatype Option<T> = None | Some(value: T)

  /** A spreadsheet cell as JavaScript sees it after decoding: a string, a
      number, or `undefined` for a key the row does not carry. The tag keeps
      `1` and `"1"` apart, as `===` and `Set` do. */
  datatype Cell = Text(text: string) | Number(number: int) | Missing

  /** JavaScript truthiness of a cell: `undefined`, `""` and `0` are falsy. */
  predicate Truthy(c: Cell) {
    match c
    case Text(s) => s != ""
    case Number(n) => n != 0
    case Missing => false
  }

  /** `String(c)`: the text of a cell, `"undefined"` for an absent one. */
  function JsString(c: Cell): (r: string)
    ensures c.Text? ==> r == c.text
    ensures c.Missing? ==> r == "undefined"
    ensures c.Number? ==> ParseDecimal(r) == c.number
  {
    match c
    case Text(s) => s
    case Number(n) => DecimalRoundTrip(n); DecimalString(n)
    case Missing => "undefined"
  }

  /** One employee row. The columns typed `string | number` (ID#, EMP#, MRN)
      and the region tag (SourceSheet), which may be absent, keep their cell;
      the remaining columns are text. */
  datatype Employee = Employee(
    nameEnglish: string,      // "NAME (ENG)"
    nameArabic: string,       // "NAME (AR)"
    gender: string,           // "G"
    nationality: string,      // "NATIONALITY"
    idNumber: Cell,           // "ID#"
    empNumber: Cell,          // "EMP#"
    company: string,          // "COMPANY"
    position: string,         // "POSITION"
    mrn: Cell,                // "MRN"
    location: string,         // "LOCATION"
    sourceSheet: Cell         // "SourceSheet", the region tag
  )

  datatype RegionReference = RegionReference(id: nat, name: Cell)

  datatype RegionValidation = RegionValidation(name: Cell, count: nat)

  datatype ValidationState = ValidationState(
    isValid: bool,
    regions: seq<RegionReference>,
    validationTable: seq<RegionValidation>,
    totalRegions: nat,
    errors: seq<string>
  )

  datatype AppStep = Upload | Validation | Dashboard | Report
}
