/**
 * The elective record and the course-string parser that builds the
 * `code`, `name` and `department` fields of every row of the data table
 * from a raw listing such as "AAE 4311 : OPEN ELECTIVE - INTRODUCTION TO
 * AEROSPACE ENGINEERING".
 */
module Electives {
  import opened Text

  /** The closed set of values of a record's `type` field. */
  datatype ElectiveType = OE | PEI | PEII

  /** The string a record's `type` field holds, and which the type filter compares against. */
  function TypeName(t: ElectiveType): (s: string)
    ensures s in {"OE", "PE I", "PE II"}
  {
    match t
    case OE => "OE"
    case PEI => "PE I"
    case PEII => "PE II"
  }

  /** The `typeLabel` every row of the table pairs with its `type`: a
      description that ends with the type's name in parentheses. */
  function TypeLabel(t: ElectiveType): (desc: string)
    ensures var tag := "(" + TypeName(t) + ")";
      0 < |desc| - |tag| && desc[|desc| - |tag|..] == tag
  {
    match t
    case OE => "Open Elective (OE)"
    case PEI => "Program Elective I (PE I)"
    case PEII => "Program Elective II (PE II)"
  }

  lemma TypeNameInjective(a: ElectiveType, b: ElectiveType)
    ensures TypeName(a) == TypeName(b) <==> a == b
  {
  }

  /** `getElectiveTypes()`: the three type names, each once, in the order
      the type filter lists them. */
  function ElectiveTypes(): (r: seq<string>)
    ensures |r| == 3
    ensures forall t: ElectiveType :: TypeName(t) in r
    ensures forall i :: 0 <= i < |r| ==> exists t: ElectiveType :: TypeName(t) == r[i]
    ensures forall i, j :: 0 <= i < j < |r| ==> r[i] != r[j]
  {
    [TypeName(OE), TypeName(PEI), TypeName(PEII)]
  }

  datatype Elective = Elective(
    etype: ElectiveType,
    typeLabel: string,
    code: string,
    name: string,
    department: string,
    lowestCGPA: real,
    highestCGPA: real,
    students: nat)

  /** What the parser derives from one raw listing. */
  datatype CourseParts = CourseParts(code: string, name: string, department: string)

  /** The separators, in the order in which they are tried. */
  const Separators: seq<string> := [" : ", " - ", ": "]

  /** A separator only splits when its first occurrence starts before this index. */
  const SeparatorLimit: int := 15

  /** The first occurrence of `sep` in `full` is at an index in 1..14. */
  predicate Qualifies(full: string, sep: string) {
    var idx := IndexOf(full, sep);
    0 < idx < SeparatorLimit
  }

  /** The position in `seps` of the first separator that qualifies, or -1. */
  function FirstQualifying(full: string, seps: seq<string>): (k: int)
    ensures -1 <= k < |seps|
    ensures k >= 0 ==> Qualifies(full, seps[k])
    ensures forall j :: 0 <= j < |seps| && (k == -1 || j < k) ==> !Qualifies(full, seps[j])
  {
    if seps == [] then -1
    else if Qualifies(full, seps[0]) then 0
    else
      var k := FirstQualifying(full, seps[1..]);
      if k == -1 then -1 else k + 1
  }

  /** The maximal leading run of the letters A to Z (the regular expression `^([A-Z]+)`). */
  function LeadingUpper(s: string): (r: string)
    ensures |r| <= |s| && r == s[..|r|]
    ensures forall i :: 0 <= i < |r| ==> IsUpper(r[i])
    ensures |r| == |s| || !IsUpper(s[|r|])
  {
    if s != [] && IsUpper(s[0]) then [s[0]] + LeadingUpper(s[1..]) else []
  }

  /** A record's department: the leading capital letters of its code, or "OTHER". */
  function DepartmentOf(code: string): (d: string)
    ensures code == [] || !IsUpper(code[0]) ==> d == "OTHER"
    ensures code != [] && IsUpper(code[0]) ==>
      && 0 < |d| <= |code| && d == code[..|d|]
      && (forall i :: 0 <= i < |d| ==> IsUpper(d[i]))
      && (|d| == |code| || !IsUpper(code[|d|]))
  {
    var run := LeadingUpper(code);
    if run == [] then "OTHER" else run
  }

  /** `s[from..j]` is what `\s*-?\s*` matches at `from`, where the greedy
      matcher never backtracks because every part is optional: white space
      and at most one dash, ending before further white space, and before a
      dash unless it has already taken one. */
  predicate GlueMatch(s: string, from: nat, j: nat) {
    && from <= j <= |s|
    && (forall i :: from <= i < j ==> IsSpace(s[i]) || s[i] == '-')
    && (forall i, k :: from <= i < k < j && s[i] == '-' ==> s[k] != '-')
    && (j == |s| || !IsSpace(s[j]))
    && ((forall i :: from <= i < j ==> s[i] != '-') ==> j == |s| || s[j] != '-')
  }

  /** At most one end satisfies `GlueMatch`, so it says exactly where the match ends. */
  lemma GlueMatchUnique(s: string, from: nat, j1: nat, j2: nat)
    requires GlueMatch(s, from, j1) && GlueMatch(s, from, j2)
    ensures j1 == j2
  {
    if j1 < j2 {
      assert false;
    } else if j2 < j1 {
      assert false;
    }
  }

  /** The replacement by "" of the regular expression ^WORD\s*-?\s* with the
      i flag: when `s` begins with `word` in any letter case, drop it together
      with the white space and the one dash that follow it; otherwise `s` is
      unchanged. Either way what is left is a suffix of `s`. */
  function StripPrefix(s: string, word: string): (r: string)
    ensures !StartsWithIgnoreCase(s, word) ==> r == s
    ensures StartsWithIgnoreCase(s, word) ==> |r| <= |s| - |word|
  {
    if StartsWithIgnoreCase(s, word) then s[PatternEnd(s, |word|)..] else s
  }

  /** What is left is a suffix of `s`. */
  lemma StripPrefixSuffix(s: string, word: string)
    ensures |StripPrefix(s, word)| <= |s| && StripPrefix(s, word) == s[|s| - |StripPrefix(s, word)|..]
  {
  }

  /** When `s` starts with `word`, what is left is what follows the match of
      `\s*-?\s*` after the word. */
  lemma StripPrefixMatches(s: string, word: string)
    requires StartsWithIgnoreCase(s, word)
    ensures exists j :: |word| <= j <= |s| && GlueMatch(s, |word|, j) && StripPrefix(s, word) == s[j..]
  {
    var j := PatternEnd(s, |word|);
    assert StripPrefix(s, word) == s[j..];
  }

  /** Where a match of `\s*-?\s*` that starts at `from` ends. */
  function PatternEnd(s: string, from: nat): (j: nat)
    requires from <= |s|
    ensures from <= j <= |s|
    ensures forall i :: from <= i < j ==> IsSpace(s[i]) || s[i] == '-'
    ensures |set i | from <= i < j && s[i] == '-'| <= 1
    ensures j == |s| || !IsSpace(s[j])
    ensures (set i | from <= i < j && s[i] == '-') == {} ==> j == |s| || s[j] != '-'
    ensures GlueMatch(s, from, j)
  {
    var afterSpace := SpaceEnd(s, from);
    if afterSpace < |s| && s[afterSpace] == '-' then
      var j := SpaceEnd(s, afterSpace + 1);
      assert (set i | from <= i < j && s[i] == '-') == {afterSpace};
      j
    else
      assert (set i | from <= i < afterSpace && s[i] == '-') == {};
      afterSpace
  }

  /** The boilerplate removed from the front of a name, in order; the last is a misspelling found in the data. */
  const Boilerplate: seq<string> := ["OPEN ELECTIVE", "ELECTIVE", "ELCTIVE"]

  /** The name cleanup: the three anchored prefixes in turn, then `trim()`.
      The cleaned name neither starts nor ends with white space. */
  function CleanName(s: string): (r: string)
    ensures r == [] || (!IsSpace(r[0]) && !IsSpace(r[|r| - 1]))
  {
    Trim(StripPrefix(StripPrefix(StripPrefix(s, Boilerplate[0]), Boilerplate[1]), Boilerplate[2]))
  }

  /** The cleanup only removes text: the cleaned name is a slice of the raw one. */
  lemma CleanNameWithin(s: string)
    ensures exists lo, hi :: 0 <= lo <= hi <= |s| && CleanName(s) == s[lo..hi]
  {
    StripThreeSuffix(s, Boilerplate[0], Boilerplate[1], Boilerplate[2]);
    var lo, hi := TrimOfSuffixWithin(s, StripPrefix(StripPrefix(StripPrefix(s, Boilerplate[0]), Boilerplate[1]), Boilerplate[2]));
  }

  /** Three prefix removals in a row leave a suffix of the input. */
  lemma StripThreeSuffix(s: string, w0: string, w1: string, w2: string)
    ensures var r := StripPrefix(StripPrefix(StripPrefix(s, w0), w1), w2);
      |r| <= |s| && r == s[|s| - |r|..]
  {
    StripPrefixSuffix(s, w0);
    StripOfSuffix(s, StripPrefix(s, w0), w1);
    StripOfSuffix(s, StripPrefix(StripPrefix(s, w0), w1), w2);
  }

  /** Removing a prefix from a suffix of `s` leaves a suffix of `s`. */
  lemma StripOfSuffix(s: string, t: string, w: string)
    requires |t| <= |s| && t == s[|s| - |t|..]
    ensures |StripPrefix(t, w)| <= |s| && StripPrefix(t, w) == s[|s| - |StripPrefix(t, w)|..]
  {
    StripPrefixSuffix(t, w);
    SuffixOfSuffix(s, t, StripPrefix(t, w));
  }

  /** Trimming a suffix of `s` leaves the slice `s[lo..hi]`. */
  lemma TrimOfSuffixWithin(s: string, t: string) returns (lo: nat, hi: nat)
    requires |t| <= |s| && t == s[|s| - |t|..]
    ensures lo <= hi <= |s| && Trim(t) == s[lo..hi]
  {
    var off := |s| - |t|;
    var l := SpaceEnd(t, 0);
    var h := SpaceStart(t, l, |t|);
    assert Trim(t) == t[l..h];
    assert t[l..h] == s[off + l..off + h];
    lo, hi := off + l, off + h;
  }

  /** A suffix of a suffix is a suffix. */
  lemma SuffixOfSuffix(s: string, t: string, u: string)
    requires |t| <= |s| && t == s[|s| - |t|..]
    requires |u| <= |t| && u == t[|t| - |u|..]
    ensures u == s[|s| - |u|..]
  {
  }

  /** Nothing is removed from a name that starts with none of the prefixes, apart from white space at its ends. */
  lemma CleanNameUnanchored(s: string)
    requires forall w :: w in Boilerplate ==> !StartsWithIgnoreCase(s, w)
    ensures CleanName(s) == Trim(s)
  {
    assert Boilerplate[0] in Boilerplate && Boilerplate[1] in Boilerplate && Boilerplate[2] in Boilerplate;
  }

  /** A title made of "OPEN ELECTIVE" or "ELECTIVE", a dash with or without
      spaces around it, and a trimmed rest that starts with none of the
      prefixes, is cleaned up to just that rest. */
  lemma CleanNameDropsBoilerplate(word: string, glue: string, rest: string)
    requires word == Boilerplate[0] || word == Boilerplate[1]
    requires glue == " - " || glue == "-"
    requires rest != [] && !IsSpace(rest[0]) && !IsSpace(rest[|rest| - 1])
    requires forall w :: w in Boilerplate ==> !StartsWithIgnoreCase(rest, w)
    ensures Trim(word + glue + rest) == word + glue + rest
    ensures CleanName(word + glue + rest) == rest
  {
    var s := word + glue + rest;
    TrimFixesTrimmed(s);
    StripMatched(word, glue, rest);
    assert Boilerplate[1] in Boilerplate && Boilerplate[2] in Boilerplate;
    if word == Boilerplate[1] {
      assert !StartsWithIgnoreCase(s, Boilerplate[0]) by {
        assert LowerChar(s[0]) != LowerChar(Boilerplate[0][0]);
      }
    }
    TrimFixesTrimmed(rest);
  }

  /** The anchored pattern for `word` removes the word, the dash and its spaces. */
  lemma StripMatched(word: string, glue: string, rest: string)
    requires glue == " - " || glue == "-"
    requires rest != [] && !IsSpace(rest[0])
    ensures StripPrefix(word + glue + rest, word) == rest
  {
    var s := word + glue + rest;
    assert StartsWithIgnoreCase(s, word) by {
      assert forall i :: 0 <= i < |word| ==> s[i] == word[i];
    }
    GlueEnd(word, glue, rest);
    assert s[|word| + |glue|..] == rest;
  }

  /** The pattern after the word consumes exactly the dash and its spaces. */
  lemma GlueEnd(word: string, glue: string, rest: string)
    requires glue == " - " || glue == "-"
    requires rest != [] && !IsSpace(rest[0])
    ensures PatternEnd(word + glue + rest, |word|) == |word| + |glue|
  {
    var s := word + glue + rest;
    var w := |word|;
    assert s[w + |glue|] == rest[0];
    if glue == " - " {
      assert s[w] == ' ' && s[w + 1] == '-' && s[w + 2] == ' ';
      assert SpaceEnd(s, w + 2) == w + 3;
      assert SpaceEnd(s, w) == w + 1;
    } else {
      assert s[w] == '-';
      assert SpaceEnd(s, w + 1) == w + 1;
      assert SpaceEnd(s, w) == w;
    }
  }

  /** The code `parseCourseName` splits off: the text before the first
      qualifying separator, trimmed, or "" when none qualifies. */
  function CodePart(full: string): (code: string)
    ensures FirstQualifying(full, Separators) == -1 ==> code == []
    ensures |code| < SeparatorLimit
    ensures code == [] || (!IsSpace(code[0]) && !IsSpace(code[|code| - 1]))
  {
    var k := FirstQualifying(full, Separators);
    if k == -1 then "" else Trim(full[..IndexOf(full, Separators[k])])
  }

  /** The name before cleanup: the text after the first qualifying
      separator, trimmed, or the whole input when none qualifies. */
  function NamePart(full: string): (name: string)
    ensures FirstQualifying(full, Separators) == -1 ==> name == full
  {
    var k := FirstQualifying(full, Separators);
    if k == -1 then full else Trim(full[IndexOf(full, Separators[k]) + |Separators[k]|..])
  }

  /** What `parseCourseName` returns for `full`. */
  function ParsedCourse(full: string): (p: CourseParts)
    ensures p.name == [] || (!IsSpace(p.name[0]) && !IsSpace(p.name[|p.name| - 1]))
    ensures p.department == "OTHER" || (0 < |p.department| <= |p.code| && p.department == p.code[..|p.department|])
  {
    var code := CodePart(full);
    CourseParts(code, CleanName(NamePart(full)), DepartmentOf(code))
  }

  /** `parseCourseName`: try each separator in turn, split at the first that
      qualifies, then derive the department and clean up the name. */
  method ParseCourseName(fullName: string) returns (parts: CourseParts)
    ensures parts == ParsedCourse(fullName)
  {
    var code := "";
    var name := fullName;
    ghost var chosen := -1;
    for i := 0 to |Separators|
      invariant code == "" && name == fullName && chosen == -1
      invariant forall j :: 0 <= j < i ==> !Qualifies(fullName, Separators[j])
    {
      var sep := Separators[i];
      var idx := IndexOf(fullName, sep);
      if idx > 0 && idx < SeparatorLimit {
        code := Trim(fullName[..idx]);
        name := Trim(fullName[idx + |sep|..]);
        chosen := i;
        SplitParts(fullName, i);
        assert fullName[idx + |sep|..] == fullName[IndexOf(fullName, Separators[i]) + |Separators[i]|..];
        assert code == CodePart(fullName) && name == NamePart(fullName);
        break;
      }
    }
    if chosen == -1 {
      NoneQualifies(fullName, Separators);
      assert code == CodePart(fullName);
      assert name == NamePart(fullName);
    }
    var department := DepartmentOf(code);
    ghost var split := name;
    name := StripPrefix(name, "OPEN ELECTIVE");
    name := StripPrefix(name, "ELECTIVE");
    name := StripPrefix(name, "ELCTIVE");
    name := Trim(name);
    assert name == CleanName(split);
    parts := CourseParts(code, name, department);
  }

  /** When separator `k` is the first that qualifies, the code and the name
      are the trimmed text before and after its first occurrence. */
  lemma SplitParts(full: string, k: int)
    requires 0 <= k < |Separators| && Qualifies(full, Separators[k])
    requires forall j :: 0 <= j < k ==> !Qualifies(full, Separators[j])
    ensures FirstQualifying(full, Separators) == k
    ensures CodePart(full) == Trim(full[..IndexOf(full, Separators[k])])
    ensures NamePart(full) == Trim(full[IndexOf(full, Separators[k]) + |Separators[k]|..])
  {
    FirstQualifyingIs(full, Separators, k);
  }

  /** When no separator qualifies, `FirstQualifying` says so. */
  lemma NoneQualifies(full: string, seps: seq<string>)
    requires forall j :: 0 <= j < |seps| ==> !Qualifies(full, seps[j])
    ensures FirstQualifying(full, seps) == -1
  {
  }

  /** The separator that qualifies when none before it does is the first that qualifies. */
  lemma FirstQualifyingIs(full: string, seps: seq<string>, k: int)
    requires 0 <= k < |seps| && Qualifies(full, seps[k])
    requires forall j :: 0 <= j < k ==> !Qualifies(full, seps[j])
    ensures FirstQualifying(full, seps) == k
  {
  }

  /** No separator tried before `Separators[k]` qualifies in `full`. */
  predicate NoEarlierSeparator(full: string, k: nat) {
    forall m :: 0 <= m < k && m < |Separators| ==> !Qualifies(full, Separators[m])
  }

  /** A listing made of a code, a separator and a title is split at that
      separator, provided the code is trimmed, shorter than 15 characters and
      free of ':' and '-', and no separator tried earlier qualifies. */
  lemma {:induction false} ParseSplitsAtSeparator(code: string, k: nat, title: string)
    requires k < |Separators|
    requires 0 < |code| < SeparatorLimit && !IsSpace(code[0]) && !IsSpace(code[|code| - 1])
    requires ':' !in code && '-' !in code
    requires NoEarlierSeparator(code + Separators[k] + title, k)
    ensures ParsedCourse(code + Separators[k] + title)
      == CourseParts(code, CleanName(Trim(title)), DepartmentOf(code))
  {
    var sep := Separators[k];
    var full := code + sep + title;
    assert full[|code|..|code| + |sep|] == sep;
    var j := if k == 2 then 0 else 1;
    assert full[..|code| + j] == code + sep[..j];
    IndexOfAt(full, sep, |code|, j);
    assert FirstQualifying(full, Separators) == k;
    assert full[..|code|] == code;
    TrimFixesTrimmed(code);
    assert full[|code| + |sep|..] == title;
  }

  /** A title without ':' in its first 15 characters, nor '-' there when the
      separator is ": ", lets no earlier separator qualify. */
  lemma EarlierSeparatorAbsent(code: string, k: nat, title: string)
    requires k < |Separators|
    requires 0 < |code| < SeparatorLimit && !IsSpace(code[|code| - 1])
    requires ':' !in code && '-' !in code
    requires forall q :: 0 <= q < |title| && q < SeparatorLimit ==>
      (k >= 1 ==> title[q] != ':') && (k == 2 ==> title[q] != '-')
    ensures NoEarlierSeparator(code + Separators[k] + title, k)
  {
    forall m | 0 <= m < k
      ensures !Qualifies(code + Separators[k] + title, Separators[m])
    {
      EarlierSeparatorAbsentAt(code, k, title, m);
    }
  }

  /** One earlier separator at a time, for `EarlierSeparatorAbsent`. */
  lemma EarlierSeparatorAbsentAt(code: string, k: nat, title: string, m: nat)
    requires m < k < |Separators|
    requires 0 < |code| < SeparatorLimit && !IsSpace(code[|code| - 1])
    requires ':' !in code && '-' !in code
    requires forall q :: 0 <= q < |title| && q < SeparatorLimit ==>
      (k >= 1 ==> title[q] != ':') && (k == 2 ==> title[q] != '-')
    ensures !Qualifies(code + Separators[k] + title, Separators[m])
  {
    var full := code + Separators[k] + title;
    var pat := Separators[m];
    forall p | 0 <= p < SeparatorLimit
      ensures !OccursAt(full, pat, p)
    {
      if p + |pat| <= |full| {
        assert full[p..p + |pat|][0] == full[p] && full[p..p + |pat|][1] == full[p + 1];
        if p + 1 < |code| {
          assert full[p + 1] == code[p + 1];
        } else if p + 1 == |code| {
          assert full[p] == code[|code| - 1];
        } else if p + 1 < |code| + |Separators[k]| {
          assert full[p + 1] == Separators[k][p + 1 - |code|];
        } else {
          assert full[p + 1] == title[p + 1 - |code| - |Separators[k]|];
        }
      }
    }
  }

  /** With no qualifying separator the code is empty, the department is
      "OTHER" and the whole listing goes through the name cleanup. */
  lemma ParseWithoutSeparator(full: string)
    requires FirstQualifying(full, Separators) == -1
    ensures ParsedCourse(full) == CourseParts("", CleanName(full), "OTHER")
  {
  }

  /** None of the three prefixes starts a string whose first letter is neither 'O' nor 'E' in either case. */
  lemma NoBoilerplateAt(s: string)
    requires s != [] && LowerChar(s[0]) != 'o' && LowerChar(s[0]) != 'e'
    ensures forall w :: w in Boilerplate ==> !StartsWithIgnoreCase(s, w)
  {
    forall w | w in Boilerplate
      ensures !StartsWithIgnoreCase(s, w)
    {
      assert LowerChar(w[0]) == 'o' || LowerChar(w[0]) == 'e';
    }
  }

  /** The department of a code of three capitals, a space and digits is its three capitals. */
  lemma DepartmentOfThreeLetters(code: string)
    requires |code| >= 4 && IsUpper(code[0]) && IsUpper(code[1]) && IsUpper(code[2]) && code[3] == ' '
    ensures DepartmentOf(code) == code[..3]
  {
    assert !IsUpper(code[3]);
  }

  /** A listing whose title is trimmed and starts with none of the prefixes
      keeps the whole title as its name. */
  lemma ParseKeepsTitle(code: string, k: nat, title: string)
    requires k < |Separators|
    requires 0 < |code| < SeparatorLimit && !IsSpace(code[0]) && !IsSpace(code[|code| - 1])
    requires ':' !in code && '-' !in code
    requires NoEarlierSeparator(code + Separators[k] + title, k)
    requires title == [] || (!IsSpace(title[0]) && !IsSpace(title[|title| - 1]))
    requires forall w :: w in Boilerplate ==> !StartsWithIgnoreCase(title, w)
    ensures ParsedCourse(code + Separators[k] + title) == CourseParts(code, title, DepartmentOf(code))
  {
    ParseSplitsAtSeparator(code, k, title);
    TrimFixesTrimmed(title);
    CleanNameUnanchored(title);
  }

  /** A listing whose title is "OPEN ELECTIVE" or "ELECTIVE", a dash and a
      trimmed rest has just that rest as its name, when no earlier separator
      qualifies. */
  lemma ParseDropsBoilerplate(code: string, k: nat, word: string, glue: string, rest: string)
    requires k < |Separators|
    requires 0 < |code| < SeparatorLimit && !IsSpace(code[0]) && !IsSpace(code[|code| - 1])
    requires ':' !in code && '-' !in code
    requires word == Boilerplate[0] || word == Boilerplate[1]
    requires glue == " - " || glue == "-"
    requires NoEarlierSeparator(code + Separators[k] + (word + glue + rest), k)
    requires rest != [] && !IsSpace(rest[0]) && !IsSpace(rest[|rest| - 1])
    requires forall w :: w in Boilerplate ==> !StartsWithIgnoreCase(rest, w)
    ensures ParsedCourse(code + Separators[k] + (word + glue + rest)) == CourseParts(code, rest, DepartmentOf(code))
  {
    ParseSplitsAtSeparator(code, k, word + glue + rest);
    CleanNameDropsBoilerplate(word, glue, rest);
  }

  /** After " - ", a boilerplate title whose rest has no ':' lets " : " not qualify. */
  lemma BoilerplateTitleClear(code: string, word: string, glue: string, rest: string)
    requires 0 < |code| < SeparatorLimit && !IsSpace(code[|code| - 1])
    requires ':' !in code && '-' !in code
    requires word == Boilerplate[0] || word == Boilerplate[1]
    requires glue == " - " || glue == "-"
    requires forall q :: 0 <= q < |rest| ==> rest[q] != ':'
    ensures NoEarlierSeparator(code + Separators[1] + (word + glue + rest), 1)
  {
    var title := word + glue + rest;
    forall q | 0 <= q < |title| && q < SeparatorLimit
      ensures title[q] != ':'
    {
      if q < |word| {
        assert title[q] == word[q];
      } else if q < |word| + |glue| {
        assert title[q] == glue[q - |word|];
      } else {
        assert title[q] == rest[q - |word| - |glue|];
      }
    }
    EarlierSeparatorAbsent(code, 1, title);
  }

  /** A course code of three capitals, a space and four digits, as every code in the table is. */
  predicate CourseCode(code: string) {
    && |code| == 8
    && IsUpper(code[0]) && IsUpper(code[1]) && IsUpper(code[2]) && code[3] == ' '
    && (forall i :: 4 <= i < 8 ==> '0' <= code[i] <= '9')
  }

  /** Such a code meets the conditions on the code of `ParseKeepsTitle` and
      `ParseDropsBoilerplate`, and its department is its three capitals. */
  lemma CourseCodeShape(code: string)
    requires CourseCode(code)
    ensures 0 < |code| < SeparatorLimit && !IsSpace(code[0]) && !IsSpace(code[|code| - 1])
    ensures ':' !in code && '-' !in code
    ensures DepartmentOf(code) == code[..3]
  {
    assert forall i :: 0 <= i < |code| ==> code[i] != ':' && code[i] != '-' by {
      forall i | 0 <= i < |code|
        ensures code[i] != ':' && code[i] != '-'
      {
        if i >= 4 {
          assert '0' <= code[i] <= '9';
        }
      }
    }
    DepartmentOfThreeLetters(code);
  }

  /** A title of capitals and spaces that starts and ends with a capital. */
  predicate CapitalWords(s: string) {
    && s != [] && IsUpper(s[0]) && IsUpper(s[|s| - 1])
    && (forall i :: 0 <= i < |s| ==> IsUpper(s[i]) || s[i] == ' ')
  }

  /** Such a title is trimmed and has no ':' or '-'; unless it starts with
      'O' or 'E' it starts with none of the prefixes either. */
  lemma CapitalWordsPlain(s: string)
    requires CapitalWords(s) && s[0] != 'O' && s[0] != 'E'
    ensures !IsSpace(s[0]) && !IsSpace(s[|s| - 1])
    ensures forall q :: 0 <= q < |s| ==> s[q] != ':' && s[q] != '-'
    ensures forall w :: w in Boilerplate ==> !StartsWithIgnoreCase(s, w)
  {
    NoBoilerplateAt(s);
  }

  /** A listing of the table's shape with " - " and "OPEN ELECTIVE - " before
      a title of capitals has that title as its name. */
  lemma ParseOpenElectiveDash(code: string, rest: string)
    requires CourseCode(code) && CapitalWords(rest) && rest[0] != 'O' && rest[0] != 'E'
    ensures ParsedCourse(code + Separators[1] + (Boilerplate[0] + " - " + rest)) == CourseParts(code, rest, code[..3])
  {
    CourseCodeShape(code);
    CapitalWordsPlain(rest);
    BoilerplateTitleClear(code, Boilerplate[0], " - ", rest);
    ParseDropsBoilerplate(code, 1, Boilerplate[0], " - ", rest);
  }

  /** The listing at lib/electives.ts:70, "IIE 4310 - OPEN ELECTIVE - MEDICAL
      EMERGENCY AND FIRST AID", splits at " - " and loses its "OPEN ELECTIVE - ";
      the listing is passed in as the pieces the requires fix. */
  lemma ParseMedicalEmergency(code: string, rest: string)
    requires code == "IIE 4310" && rest == "MEDICAL EMERGENCY AND FIRST AID"
    ensures ParsedCourse(code + Separators[1] + (Boilerplate[0] + " - " + rest)) == CourseParts(code, rest, "IIE")
  {
    assert CourseCode(code);
    MedicalEmergencyTitle(rest);
    ParseOpenElectiveDash(code, rest);
  }

  /** The title of that listing after its boilerplate, for `CapitalWordsPlain`. */
  lemma MedicalEmergencyTitle(rest: string)
    requires rest == "MEDICAL EMERGENCY AND FIRST AID"
    ensures CapitalWords(rest) && rest[0] == 'M'
  {
  }

  /** The misspelt "OPEN ELCTIVE - " matches none of the prefixes: "OPEN
      ELECTIVE" differs from it at its eighth letter, and the other two at
      the first. */
  lemma MisspeltPrefixKept(rest: string)
    requires CapitalWords(rest)
    ensures var t := "OPEN ELCTIVE - " + rest;
      && !IsSpace(t[0]) && !IsSpace(t[|t| - 1])
      && forall w :: w in Boilerplate ==> !StartsWithIgnoreCase(t, w)
  {
    var t := "OPEN ELCTIVE - " + rest;
    assert t[|t| - 1] == rest[|rest| - 1];
    forall w | w in Boilerplate
      ensures !StartsWithIgnoreCase(t, w)
    {
      if w == Boilerplate[0] {
        assert LowerChar(t[7]) != LowerChar(w[7]);
      } else {
        assert LowerChar(t[0]) != LowerChar(w[0]);
      }
    }
  }

  /** The listing at lib/electives.ts:71, "IIE 4315 : OPEN ELCTIVE - REPORTING
      AND WRITING", keeps its misspelt "OPEN ELCTIVE": none of the anchored
      prefixes matches it. The listing is passed in as the pieces the requires fix. */
  lemma ParseReportingAndWriting(code: string, rest: string)
    requires code == "IIE 4315" && rest == "REPORTING AND WRITING"
    ensures ParsedCourse(code + Separators[0] + ("OPEN ELCTIVE - " + rest))
      == CourseParts(code, "OPEN ELCTIVE - " + rest, "IIE")
  {
    assert CourseCode(code);
    CourseCodeShape(code);
    assert CapitalWords(rest);
    MisspeltPrefixKept(rest);
    ParseKeepsTitle(code, 0, "OPEN ELCTIVE - " + rest);
  }

  /** The listing at lib/electives.ts:101, "CRA 4401 : ELECTIVE-MARKETING IN A
      DIGITAL WORLD", loses "ELECTIVE-" although the dash has no spaces around
      it; the listing is passed in as the pieces the requires fix. */
  lemma ParseMarketing(code: string, rest: string)
    requires code == "CRA 4401" && rest == "MARKETING IN A DIGITAL WORLD"
    ensures ParsedCourse(code + Separators[0] + (Boilerplate[1] + "-" + rest)) == CourseParts(code, rest, "CRA")
  {
    assert CourseCode(code);
    CourseCodeShape(code);
    assert CapitalWords(rest);
    CapitalWordsPlain(rest);
    ParseDropsBoilerplate(code, 0, Boilerplate[1], "-", rest);
  }

  /** The listing at lib/electives.ts:67, "ICE 4318: Outdoor Leadership", has
      neither " : " nor " - " and is split at ": ", the last separator tried;
      the listing is passed in as the pieces the requires fix. */
  lemma ParseOutdoorLeadership(code: string, title: string)
    requires code == "ICE 4318" && title == "Outdoor Leadership"
    ensures ParsedCourse(code + Separators[2] + title) == CourseParts(code, title, "ICE")
  {
    assert CourseCode(code);
    OutdoorLeadershipTitle(title);
    ParsePlainTitle(code, 2, title);
  }

  /** A listing of the table's shape whose title is trimmed, has no ':' or
      '-', and starts with none of the prefixes, splits at its separator and
      keeps the title as its name. */
  lemma ParsePlainTitle(code: string, k: nat, title: string)
    requires k < |Separators| && CourseCode(code)
    requires title != [] && !IsSpace(title[0]) && !IsSpace(title[|title| - 1])
    requires forall q :: 0 <= q < |title| ==> title[q] != ':' && title[q] != '-'
    requires forall w :: w in Boilerplate ==> !StartsWithIgnoreCase(title, w)
    ensures ParsedCourse(code + Separators[k] + title) == CourseParts(code, title, code[..3])
  {
    CourseCodeShape(code);
    EarlierSeparatorAbsent(code, k, title);
    ParseKeepsTitle(code, k, title);
  }

  /** "Outdoor Leadership" is trimmed, has no ':' or '-', and starts with none
      of the prefixes: it parts from "OPEN ELECTIVE" at its second letter. */
  lemma OutdoorLeadershipTitle(title: string)
    requires title == "Outdoor Leadership"
    ensures !IsSpace(title[0]) && !IsSpace(title[|title| - 1])
    ensures forall q :: 0 <= q < |title| ==> title[q] != ':' && title[q] != '-'
    ensures forall w :: w in Boilerplate ==> !StartsWithIgnoreCase(title, w)
  {
    forall w | w in Boilerplate
      ensures !StartsWithIgnoreCase(title, w)
    {
      if w == Boilerplate[0] {
        assert LowerChar(title[1]) != LowerChar(w[1]);
      } else {
        assert LowerChar(title[0]) != LowerChar(w[0]);
      }
    }
  }

  /** What every row of the table satisfies: its label describes its type,
      its name is trimmed, and its department is "OTHER" or a prefix of its
      code. */
  predicate WellFormed(e: Elective) {
    && e.typeLabel == TypeLabel(e.etype)
    && (e.name == [] || (!IsSpace(e.name[0]) && !IsSpace(e.name[|e.name| - 1])))
    && (e.department == "OTHER" || (0 < |e.department| <= |e.code| && e.department == e.code[..|e.department|]))
  }

  /** One row of the data table: a raw listing together with its type and
      figures, with the code, name and department derived from the listing. */
  function Row(t: ElectiveType, raw: string, lowest: real, highest: real, students: nat): (e: Elective)
    ensures WellFormed(e)
    ensures e.etype == t && e.lowestCGPA == lowest && e.highestCGPA == highest && e.students == students
    ensures CourseParts(e.code, e.name, e.department) == ParsedCourse(raw)
  {
    var p := ParsedCourse(raw);
    Elective(t, TypeLabel(t), p.code, p.name, p.department, lowest, highest, students)
  }

  /** The label of a well-formed record names its type, so the label shown
      on a card and the value the type filter compares agree. */
  lemma LabelNamesType(e: Elective)
    requires WellFormed(e)
    ensures var tag := "(" + TypeName(e.etype) + ")";
      0 < |e.typeLabel| - |tag| && e.typeLabel[|e.typeLabel| - |tag|..] == tag
  {
  }
}
