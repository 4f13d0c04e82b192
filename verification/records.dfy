/**
 One row of the award table: a laureate-award pairing. Only the columns the filters and the
 aggregate views read are modelled; display columns pass through untouched.
 */
module Records {
  import opened Options

  datatype Record = Record(
    awardYear: int,               // coerced to an integer when the table is loaded
    category: string,
    sex: Option<string>,          // "male" or "female" in the data, or missing
    birthCountry: Option<string>,
    laureateId: Option<int>,      // one laureate may hold several rows
    isShared: Option<int>         // 0 or 1 in the data; None when missing or the column is absent
  )

  /** Python's `str.lower` on one character, for the ASCII letters. */
  function LowerChar(c: char): char
  {
    if 'A' <= c <= 'Z' then (c as int - 'A' as int + 'a' as int) as char else c
  }

  /** Python's `str.lower`, for ASCII text. */
  function Lower(s: string): (r: string)
    ensures |r| == |s|
    ensures forall i :: 0 <= i < |s| ==> r[i] == LowerChar(s[i])
  {
    if |s| == 0 then "" else [LowerChar(s[0])] + Lower(s[1..])
  }
}
