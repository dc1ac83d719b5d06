/**
 * `VALID_COURSE_CODES`, `hasValidCoursePage` and `getCoursePageUrl`: the
 * courses that have a page on the course site, and the link to that page.
 */
module CourseLinks {
  import opened Text
  import opened Uri
  import opened Wrappers
  import opened Electives

  /** The codes of the courses that have a page, grouped by department. */
  const AaeCodes: set<string> := {
    "AAE 4311", "AAE 4313", "AAE 4401", "AAE 4403", "AAE 4405", "AAE 4406",
    "AAE 4413", "AAE 4414", "AAE 4417", "AAE 4418", "AAE 4421", "AAE 4422"
  }

  const BioBmeCodes: set<string> := {
    "BIO 4402", "BIO 4403", "BIO 4405", "BIO 4407", "BME 4315", "BME 4402",
    "BME 4404", "BME 4405", "BME 4406"
  }

  const CheChmCodes: set<string> := {
    "CHE 4311", "CHE 4312", "CHE 4401", "CHE 4402", "CHE 4406", "CHE 4407",
    "CHE 4409", "CHE 4410", "CHM 4312"
  }

  const CieCodes: set<string> := {
    "CIE 4313", "CIE 4314", "CIE 4316", "CIE 4401", "CIE 4402", "CIE 4409",
    "CIE 4410", "CIE 4417", "CIE 4418"
  }

  const DseEceCodes: set<string> := {
    "DSE 4401", "DSE 4402", "DSE 4405", "DSE 4406", "ECE 4311", "ECE 4406",
    "ECE 4409", "ECE 4411", "ECE 4416", "ECE 4421", "ECE 4424"
  }

  const EleHumCodes: set<string> := {
    "ELE 4312", "ELE 4409", "ELE 4415", "ELE 4416", "HUM 4322", "HUM 4323",
    "HUM 4329", "HUM 4401", "HUM 4402", "HUM 4408", "HUM 4409", "HUM 4411",
    "HUM 4420", "HUM 4424"
  }

  const IceToMieCodes: set<string> := {
    "ICE 4316", "ICE 4402", "ICT 4401", "ICT 4402", "ICT 4414", "MAT 4405",
    "MAT 4407", "MIE 4401", "MIE 4402", "MIE 4408", "MIE 4409", "MIE 4421"
  }

  const ValidCourseCodes: set<string> := AaeCodes + BioBmeCodes + CheChmCodes + CieCodes + DseEceCodes + EleHumCodes + IceToMieCodes

  const BaseUrl := "https://courses.coolstuff.work/course/"

  lemma AaeShape(code: string)
    requires code in AaeCodes
    ensures CourseCode(code) && (code[..3] == "AAE")
  {
  }

  lemma BioBmeShape(code: string)
    requires code in BioBmeCodes
    ensures CourseCode(code) && (code[..3] == "BIO" || code[..3] == "BME")
  {
  }

  lemma CheChmShape(code: string)
    requires code in CheChmCodes
    ensures CourseCode(code) && (code[..3] == "CHE" || code[..3] == "CHM")
  {
  }

  lemma CieShape(code: string)
    requires code in CieCodes
    ensures CourseCode(code) && (code[..3] == "CIE")
  {
  }

  lemma DseEceShape(code: string)
    requires code in DseEceCodes
    ensures CourseCode(code) && (code[..3] == "DSE" || code[..3] == "ECE")
  {
  }

  lemma EleHumShape(code: string)
    requires code in EleHumCodes
    ensures CourseCode(code) && (code[..3] == "ELE" || code[..3] == "HUM")
  {
  }

  lemma IceToMieShape(code: string)
    requires code in IceToMieCodes
    ensures CourseCode(code) && (code[..3] == "ICE" || code[..3] == "ICT" || code[..3] == "MAT" || code[..3] == "MIE")
  {
  }

  /** The departments the listed courses belong to. */
  predicate ListedDepartment(d: string) {
    d == "AAE"
    || d == "BIO"
    || d == "BME"
    || d == "CHE"
    || d == "CHM"
    || d == "CIE"
    || d == "DSE"
    || d == "ECE"
    || d == "ELE"
    || d == "HUM"
    || d == "ICE"
    || d == "ICT"
    || d == "MAT"
    || d == "MIE"
  }

  /** Every listed code is three capitals, a space and four digits, and its
      department is one of the listed ones. */
  lemma ValidCodeShape(code: string)
    requires code in ValidCourseCodes
    ensures CourseCode(code) && ListedDepartment(code[..3])
  {
    if code in AaeCodes { AaeShape(code); }
    else if code in BioBmeCodes { BioBmeShape(code); }
    else if code in CheChmCodes { CheChmShape(code); }
    else if code in CieCodes { CieShape(code); }
    else if code in DseEceCodes { DseEceShape(code); }
    else if code in EleHumCodes { EleHumShape(code); }
    else { IceToMieShape(code); }
  }

  /** A code of that shape is encoded by escaping its one space. */
  lemma EncodeCourseCode(code: string)
    requires CourseCode(code)
    ensures EncodeURIComponent(code) == code[..3] + "%20" + code[4..]
    ensures DecodeAscii(EncodeURIComponent(code)) == code
  {
    assert code == code[..3] + [' '] + code[4..];
    EncodeAppend(code[..3] + [' '], code[4..]);
    EncodeAppend(code[..3], [' ']);
    EncodeUnreserved(code[..3]);
    EncodeUnreserved(code[4..]);
    EncodeSpace();
    AsciiRoundTrip(code);
  }

  /** `hasValidCoursePage(code)`: the code is in the set. Any such code is
      three capitals, a space and four digits, from a listed department. */
  predicate HasValidCoursePage(code: string)
    ensures HasValidCoursePage(code) ==> CourseCode(code) && ListedDepartment(code[..3])
  {
    if code in ValidCourseCodes then ValidCodeShape(code); true else false
  }

  /** `getCoursePageUrl(code)`: `null` unless the code has a page, and
      otherwise a link under the site's course path whose last segment
      decodes back to the code. */
  function GetCoursePageUrl(code: string): (r: Option<string>)
    ensures r.None? <==> !HasValidCoursePage(code)
    ensures r.Some? ==>
      && |BaseUrl| <= |r.value| && r.value[..|BaseUrl|] == BaseUrl
      && UriSafe(r.value[|BaseUrl|..])
      && DecodeAscii(r.value[|BaseUrl|..]) == code
  {
    if !HasValidCoursePage(code) then None
    else
      var path := EncodeURIComponent(code);
      ValidCodeShape(code);
      EncodeCourseCode(code);
      EncodeSafe(code);
      assert (BaseUrl + path)[|BaseUrl|..] == path;
      Some(BaseUrl + path)
  }

  /** The link built from a code of that shape. */
  lemma ShapedCodeUrl(code: string)
    requires CourseCode(code)
    ensures BaseUrl + EncodeURIComponent(code) == BaseUrl + (code[..3] + "%20" + code[4..])
  {
    EncodeCourseCode(code);
  }

  /** The link to a listed course escapes the space of its code as "%20". */
  lemma ValidCodeUrl(code: string)
    requires HasValidCoursePage(code)
    ensures |code| == 8 && GetCoursePageUrl(code) == Some(BaseUrl + (code[..3] + "%20" + code[4..]))
  {
    ValidCodeShape(code);
    ShapedCodeUrl(code);
  }

  /** A code whose first three characters are not a listed department has no page. */
  lemma UnlistedDepartment(code: string)
    requires |code| >= 3 && !ListedDepartment(code[..3])
    ensures !HasValidCoursePage(code) && GetCoursePageUrl(code) == None
  {
    if code in ValidCourseCodes {
      ValidCodeShape(code);
      assert false;
    }
  }

  /** The escaped form of the first listed code, character by character. */
  lemma FirstCodeEscaped(code: string)
    requires code == "AAE 4311"
    ensures code[..3] + "%20" + code[4..] == "AAE%204311"
  {
    var escaped := code[..3] + "%20" + code[4..];
    assert |escaped| == 10;
    assert forall i :: 0 <= i < 10 ==> escaped[i] == "AAE%204311"[i];
  }

  /** The link to the first listed course. */
  lemma FirstCourseLink(code: string)
    requires code == "AAE 4311"
    ensures GetCoursePageUrl(code) == Some(BaseUrl + "AAE%204311")
  {
    assert code in AaeCodes;
    ValidCodeUrl(code);
    FirstCodeEscaped(code);
  }

  /** A course of the table that has no page. */
  lemma UnlistedCourseLink(code: string)
    requires code == "IIE 4315"
    ensures GetCoursePageUrl(code) == None
  {
    assert code[..3] == "IIE";
    UnlistedDepartment(code);
  }
}
