/** A collected record: field name to value. Every value is treated as a
    string, as the collector does when it calls `strip()` and `str()` on them. */
module Records {
  import opened Text

  type Record = map<string, string>

  const NumField := "NUM"
  const NameField := "FOOD_NM_KR"
  const MakerField := "MAKER_NM"
  const CategoryField := "FOOD_CAT1_NM"
  const UpdateField := "UPDATE_DATE"
  const AmtPrefix := "AMT_NUM"

  /** `r.get(k) or ""`: a missing field reads as the empty string. */
  function Field(r: Record, k: string): (v: string)
    ensures k !in r ==> v == ""
    ensures k in r ==> v == r[k]
  {
    if k in r then r[k] else ""
  }

  /** A field's value with surrounding whitespace removed; a missing field
      reads as "". */
  function StrippedField(r: Record, k: string): string
  {
    Strip(Field(r, k))
  }

  /** A present field that has no surrounding whitespace reads as itself. */
  lemma StrippedFieldPresent(r: Record, k: string)
    requires k in r && Strip(r[k]) == r[k]
    ensures StrippedField(r, k) == r[k]
  {
  }
}
