# Elective dashboard core, in Dafny

This project models the logic behind a dashboard of university electives.
The dashboard lists every elective with its type (Open Elective, Program
Elective I or II), its department, the lowest and highest CGPA it admitted,
and its number of students. It lets a student filter, search and sort the
list, and jump to a course from a Ctrl+K palette.

The model covers two source files.

- `lib/electives.ts`:
  - the course-string parser that derives each record's code, name and department;
  - the department and type lists;
  - the filter-and-sort query;
  - the header statistics;
  - the difficulty ladder;
  - the set of course codes that have a page on the course site, and the link to that page.
- `components/elective-dashboard.tsx`: the state of the page and of its
  palette, and every handler that changes that state.
  - The page state is the search box, the type and department selects, the
    sort column and direction, whether the palette is open, and the
    highlighted card.
  - The palette state is its query, its selected index and its results.
  - The handlers are the key handling, the open and query effects, the sort
    buttons, the selection of a course, Ctrl+K and "Clear Filters".

Modules:

| file | module | what it holds |
|---|---|---|
| `text.dfy` | `Text` | the string primitives the code relies on (see below) |
| `seqs.dfy` | `Seqs` | `Array.prototype.filter` as `Keep`, `slice(0, n)` as `Prefix`, and reversal |
| `sorting.dfy` | `Sorting` | a stable sort by a comparator, as ECMA-262 requires of `Array.prototype.sort` |
| `wrappers.dfy` | `Wrappers` | `Option`, for the `null` results |
| `electives.dfy` | `Electives` | the record, `getElectiveTypes` and `parseCourseName` |
| `query.dfy` | `Query` | `filterElectives` |
| `stats.dfy` | `Stats` | `getDepartments` and `getStats` |
| `difficulty.dfy` | `Difficulty` | `getDifficultyLevel` |
| `uri.dfy` | `Uri` | `encodeURIComponent` |
| `course_links.dfy` | `CourseLinks` | `VALID_COURSE_CODES`, `hasValidCoursePage` and `getCoursePageUrl` |
| `dashboard.dfy` | `Dashboard` | the palette's results and key arithmetic, and the class that holds the page state |

The string primitives in `Text` are `indexOf`, `includes`, `trim`,
ASCII `toLowerCase` and the case-insensitive prefix test of a `/i` pattern.

The data table (`electiveData`) is a parameter of every operation rather
than a constant. Four of its rows are checked one by one against the
parser: lines 67, 70, 71 and 101.

`parseCourseName` loops over the separators and breaks at the first that
qualifies. It is a method with a loop, proved equal to the function
`ParsedCourse`, and the lemmas about the parse are stated on that
function.

`filterElectives` reassigns a local list step by step. It is a method,
proved equal to `FilterSpec`, which filters once and then sorts stably.

The React component keeps its state in hooks. The model turns it into the
class `Dashboard.Dashboard`: each `useState` is a field, and the memoised
filtered list is a field that every handler recomputes.
- `Valid()` is the class invariant. It has three parts:
  - the grid always shows `FilterSpec` of the current settings;
  - the sort column is one of the three buttons;
  - the palette's index is -1, 0 or a valid result index.
- Each handler states its whole new state.

## Model

| member | source | states |
|---|---|---|
| Electives.TypeName | lib/electives.ts:4 | the `type` field holds one of "OE", "PE I", "PE II" |
| Electives.TypeNameInjective | lib/electives.ts:4 | two types have the same name exactly when they are the same type, so the type filter's string comparison picks out one type |
| Electives.TypeLabel | lib/electives.ts:47-189 | each label is a description ending in its type's name in parentheses, as "Open Elective (OE)" ends in "(OE)" |
| Electives.ElectiveTypes | lib/electives.ts:199-201 | `getElectiveTypes` lists three names, every type's name occurs, each entry is the name of a type, and no name is repeated |
| Electives.Row | lib/electives.ts:45-190 | a row keeps its type and its three figures as given, its code, name and department are what `parseCourseName` derives from the raw listing, and it is `WellFormed`: its label is the one of its type, its name is trimmed, its department is "OTHER" or a prefix of its code |
| Electives.LabelNamesType | lib/electives.ts:4-5 | in a well-formed row the label ends with the name of the row's `type` in parentheses |
| Electives.FirstQualifying | lib/electives.ts:21-28 | the separator chosen is one whose first occurrence starts at an index from 1 to 14, and no separator tried before it qualifies; -1 means none qualifies |
| Electives.LeadingUpper | lib/electives.ts:31 | `^([A-Z]+)` matches a prefix of capitals that cannot be extended |
| Electives.DepartmentOf | lib/electives.ts:31-32 | the department is "OTHER" when the code does not start with a capital, and otherwise the maximal leading run of capitals of the code |
| Electives.DepartmentOfThreeLetters | lib/electives.ts:31-32 | a code of three capitals followed by a space has those three capitals as its department |
| Electives.PatternEnd | lib/electives.ts:36-38 | `\s*-?\s*` consumes only white space and at most one dash, stops before white space, and stops before a dash when it has taken none: it ends where `GlueMatch` says |
| Electives.GlueMatchUnique | lib/electives.ts:36-38 | only one end satisfies `GlueMatch`, so that predicate pins down what the greedy pattern consumes |
| Electives.StripPrefix | lib/electives.ts:36-38 | without the word at the front, in any letter case, the string is unchanged; with it, at least the word is removed |
| Electives.StripPrefixSuffix | lib/electives.ts:36-38 | a replacement anchored at `^` only removes a prefix: what is left is a suffix of the string |
| Electives.StripPrefixMatches | lib/electives.ts:36-38 | with the word at the front, what is left is exactly what follows a `GlueMatch` of `\s*-?\s*` after the word |
| Electives.StripMatched | lib/electives.ts:36-37 | a word, then " - " or "-", then text that does not start with white space loses exactly the word and the dash part |
| Electives.GlueEnd | lib/electives.ts:36-37 | the pattern after the word ends exactly after " - " or "-" when non-space text follows |
| Electives.CleanName | lib/electives.ts:35-39 | the cleaned name has no white space at either end |
| Electives.CleanNameWithin | lib/electives.ts:35-39 | the cleaned name is a slice of the raw name: the three replacements and `trim` only remove text |
| Electives.CleanNameUnanchored | lib/electives.ts:35-39 | a name that starts with none of the three prefixes is only trimmed |
| Electives.CleanNameDropsBoilerplate | lib/electives.ts:35-39 | "OPEN ELECTIVE" or "ELECTIVE", a dash with or without spaces, and a trimmed rest come out as just that rest |
| Electives.CodePart | lib/electives.ts:18-24 | the code is "" when no separator qualifies, shorter than 15 characters, and trimmed |
| Electives.NamePart | lib/electives.ts:19-25 | without a qualifying separator the name before cleanup is the whole listing |
| Electives.ParsedCourse | lib/electives.ts:15-42 | the name is trimmed, and the department is "OTHER" or a nonempty prefix of the code |
| Electives.ParseCourseName | lib/electives.ts:15-42 | the loop over the separators with its `break`, the department match and the three replacements compute exactly `ParsedCourse` |
| Electives.SplitParts | lib/electives.ts:21-27 | the first qualifying separator is chosen, and code and name are the trimmed text before and after its first occurrence |
| Electives.NoneQualifies | lib/electives.ts:18-28 | when no separator qualifies, none is chosen |
| Electives.FirstQualifyingIs | lib/electives.ts:21-27 | a qualifying separator with no qualifying separator before it is the one the loop breaks at |
| Electives.ParseSplitsAtSeparator | lib/electives.ts:15-42 | a listing made of a trimmed code, one separator and a title splits at that separator, provided the code is shorter than 15 characters and has no ':' or '-', and no separator tried before it qualifies; the title is then trimmed and cleaned |
| Electives.EarlierSeparatorAbsent | lib/electives.ts:21-23 | with no ':' in the first 15 characters of the title, nor a '-' there when the separator is ": ", no earlier separator qualifies |
| Electives.EarlierSeparatorAbsentAt | lib/electives.ts:21-23 | under those conditions each earlier separator has no occurrence before index 15 |
| Electives.ParseWithoutSeparator | lib/electives.ts:18-39 | without a qualifying separator the code is "", the department "OTHER" and the whole listing is cleaned up as the name |
| Electives.ParseKeepsTitle | lib/electives.ts:15-42 | when no earlier separator qualifies, a trimmed title that starts with none of the prefixes is the name unchanged |
| Electives.ParseDropsBoilerplate | lib/electives.ts:15-42 | when no earlier separator qualifies, a title of "OPEN ELECTIVE" or "ELECTIVE", a dash and a rest gives that rest as the name, for each of the three separators |
| Electives.BoilerplateTitleClear | lib/electives.ts:21-23 | after " - ", a boilerplate title whose rest has no ':' lets " : " not qualify |
| Electives.NoBoilerplateAt | lib/electives.ts:36-38 | no prefix can match text whose first letter is neither 'O' nor 'E' in either case |
| Electives.CourseCodeShape | lib/electives.ts:22-32 | a code of three capitals, a space and four digits is short enough, trimmed, free of separators, and its department is its first three letters |
| Electives.CapitalWordsPlain | lib/electives.ts:36-39 | a title of capitals and spaces that starts with neither 'O' nor 'E' is trimmed, has no ':' or '-', and matches no prefix |
| Electives.MedicalEmergencyTitle | lib/electives.ts:70 | the rest of that row's title is capitals and spaces starting with 'M' |
| Electives.ParseOpenElectiveDash | lib/electives.ts:15-42 | a code of the table's shape, " - ", "OPEN ELECTIVE - " and a title of capitals parse to that code, that title and the code's three letters |
| Electives.ParseMedicalEmergency | lib/electives.ts:70 | "IIE 4310 - OPEN ELECTIVE - MEDICAL EMERGENCY AND FIRST AID" parses to code "IIE 4310", name "MEDICAL EMERGENCY AND FIRST AID", department "IIE" |
| Electives.MisspeltPrefixKept | lib/electives.ts:36-38 | "OPEN ELCTIVE - " matches none of the three prefixes, so nothing is stripped |
| Electives.ParseReportingAndWriting | lib/electives.ts:71 | "IIE 4315 : OPEN ELCTIVE - REPORTING AND WRITING" keeps "OPEN ELCTIVE - REPORTING AND WRITING" as its name |
| Electives.ParseMarketing | lib/electives.ts:101 | "CRA 4401 : ELECTIVE-MARKETING IN A DIGITAL WORLD" has the name "MARKETING IN A DIGITAL WORLD" and the department "CRA" |
| Electives.ParsePlainTitle | lib/electives.ts:15-42 | a code of the table's shape, any separator and a trimmed title without ':', '-' or a prefix parse to that code, that title and the code's three letters |
| Electives.OutdoorLeadershipTitle | lib/electives.ts:67 | "Outdoor Leadership" is trimmed, has no ':' or '-', and matches none of the prefixes |
| Electives.ParseOutdoorLeadership | lib/electives.ts:67 | "ICE 4318: Outdoor Leadership" splits at ": ", the last separator tried, into code "ICE 4318", name "Outdoor Leadership" and department "ICE" |
| Query.Factor | lib/electives.ts:231 | the multiplier is -1 exactly for "desc" and 1 otherwise |
| Query.Sign | lib/electives.ts:234 | only the sign of the comparator's number matters to the sort |
| Query.SignScaled | lib/electives.ts:231-241 | multiplying a difference by the order multiplier multiplies its sign by it |
| Query.Comparator | lib/electives.ts:231-246 | the switch hands `sort` a comparator whose sign is all that counts; the model returns that sign, -1, 0 or 1, and `ComparatorInOrder` says what it means for each key |
| Query.CutoffConsistent | lib/electives.ts:233-241 | the cutoff comparator is antisymmetric and transitive, so the sort result is well defined |
| Query.StudentsConsistent | lib/electives.ts:237 | the students comparator is antisymmetric and transitive |
| Query.NameConsistent | lib/electives.ts:245 | the name comparator is antisymmetric and transitive |
| Query.ComparatorConsistent | lib/electives.ts:231-246 | every comparator the switch can pick is consistent, and the "desc" comparator is the negation of the "asc" one |
| Query.ComparatorInOrder | lib/electives.ts:231-246 | the comparator says "a before b" exactly when the key's fields are in the chosen direction |
| Query.TypeStep | lib/electives.ts:211-215 | the first step keeps the records of the given type, or all when the type is absent or "all" |
| Query.DeptStep | lib/electives.ts:217-219 | the second step narrows to the department, or leaves the list unchanged when the department is absent or "all" |
| Query.SearchStep | lib/electives.ts:221-228 | the third step narrows to the records whose lower-cased name, code or department includes the lower-cased search, or leaves the list unchanged when the search is empty |
| Query.FilterSpec | lib/electives.ts:204-249 | the filtered, sorted list is never longer than the data; which records it holds and in what order are `FilterMembers`, `FilterPermutation`, `FilterOrdered` and `FilterStable` |
| Query.FilterElectives | lib/electives.ts:204-249 | the three conditional filters and the sort chosen by the switch give exactly `FilterSpec`: the filtered records, stably sorted |
| Query.FilterMembers | lib/electives.ts:211-228 | a record is in the result exactly when it is in the data and passes the type, department and search filters |
| Query.FilterPermutation | lib/electives.ts:211-246 | every record that passes occurs in the result as often as in the data, and every other record not at all |
| Query.FilterOrdered | lib/electives.ts:230-246 | the result is ordered by cutoff, students or name, ascending or descending as asked |
| Query.FilterStable | lib/electives.ts:230-246 | records that tie under the comparator keep their data order, in both directions |
| Query.DifficultyIsCutoff | lib/electives.ts:233-242 | "difficulty" sorts exactly as "cutoff" does |
| Query.DescendingReversesWithoutTies | lib/electives.ts:231-246 | with no ties among the selected records, "desc" is "asc" reversed |
| Query.DescendingKeepsTies | lib/electives.ts:231-246 | two records with the same cutoff stay in data order both ways, so "desc" is not simply "asc" reversed |
| Stats.DepartmentsOf | lib/electives.ts:194 | the mapped list has one entry per record, the department of the record at the same position |
| Stats.Distinct | lib/electives.ts:194 | the set is never larger than the list it is built from; `DistinctMembers` and `DistinctOnce` say what it holds |
| Stats.DistinctMembers | lib/electives.ts:194 | the set holds exactly the departments that occur |
| Stats.DistinctOnce | lib/electives.ts:194 | the set holds each department once |
| Stats.StringOrderConsistent | lib/electives.ts:195 | the default string order of `sort()` is antisymmetric and transitive |
| Stats.Departments | lib/electives.ts:193-196 | there are never more departments than records |
| Stats.DepartmentsAscending | lib/electives.ts:193-196 | `getDepartments` is strictly ascending, so it has no duplicates |
| Stats.DepartmentsMembers | lib/electives.ts:193-196 | a department is listed exactly when some record has it |
| Stats.DepartmentsCount | lib/electives.ts:193-196 | the list is as long as the set of departments of the records is large |
| Stats.OnceCard | lib/electives.ts:194-195 | a list without repeats is as long as its set of values is large |
| Stats.LowestCutoff | lib/electives.ts:257 | `Math.min` is Infinity for no records, and otherwise the cutoff of some record and no greater than any record's cutoff |
| Stats.HighestCutoff | lib/electives.ts:258 | `Math.max` is -Infinity for no records, and otherwise the cutoff of some record and no smaller than any record's cutoff |
| Stats.TotalStudentsSnoc | lib/electives.ts:259 | the running sum grows by each record's students |
| Stats.TotalStudents | lib/electives.ts:259 | the sum is zero exactly when every record has no students |
| Stats.Count | lib/electives.ts:253-255 | a type is counted at most once per record |
| Stats.CountZero | lib/electives.ts:253-255 | a type's count is zero exactly when no record has that type |
| Stats.CountsAddUp | lib/electives.ts:253-265 | the OE, PE I and PE II counts add up to the number of records |
| Stats.StudentsOfKindStep | lib/electives.ts:253-259 | a record adds its students to the total of its own type only |
| Stats.StudentsAddUp | lib/electives.ts:253-259 | the students of the three types add up to the total students |
| Stats.StudentsBounded | lib/electives.ts:259 | no record has more students than the total |
| Stats.GetStats | lib/electives.ts:252-271 | the total is the number of records; the three counts are the records of each type and add up to the total; the students are the sum over all records; the cutoffs are `Math.min` and `Math.max` of the records' lowest CGPAs, bounding every record's cutoff, or ±Infinity when there are none; the department count is the number of distinct departments |
| Difficulty.GetDifficultyLevel | lib/electives.ts:274-280 | each level is returned exactly on its band: at least 8 is Very Hard, [7, 8) Hard, [6, 7) Medium, [5, 6) Easy, below 5 Very Easy |
| Difficulty.RankSeparatesLevels | lib/electives.ts:274-280 | the five steps of the ladder have five distinct ranks: two cutoffs get the same rank exactly when they get the same level |
| Difficulty.HigherCutoffNotEasier | lib/electives.ts:274-280 | a higher cutoff never gives an easier level |
| Difficulty.LevelsDistinct | lib/electives.ts:275-279 | two cutoffs get the same label exactly when they get the same colour |
| Difficulty.Boundaries | lib/electives.ts:275-279 | every threshold belongs to the level above it |
| Uri.HexDigit | lib/electives.ts:307 | escapes use upper-case hexadecimal digits |
| Uri.HexValue | lib/electives.ts:307 | a hexadecimal digit has a value below 16 |
| Uri.HexDigitValue | lib/electives.ts:307 | each digit reads back as its value |
| Uri.Utf8 | lib/electives.ts:307 | a character is encoded in one to four bytes, each below 256, and in one byte exactly when it is ASCII |
| Uri.Utf8RoundTrip | lib/electives.ts:307 | the bytes are well-formed UTF-8 (the right lead byte for the length, then continuation bytes) and give the code point back |
| Uri.Percent | lib/electives.ts:307 | each byte becomes three characters |
| Uri.EncodeChar | lib/electives.ts:307 | a character stays one character exactly when it is unreserved; otherwise it becomes "%" escapes, three characters per UTF-8 byte |
| Uri.EncodeURIComponent | lib/electives.ts:307 | the encoding is never shorter than the text, and exactly as long when every character is unreserved |
| Uri.PercentSafe | lib/electives.ts:307 | escapes contain only '%' and hexadecimal digits |
| Uri.EncodeSafe | lib/electives.ts:307 | `encodeURIComponent` produces only unreserved characters, '%' and hexadecimal digits |
| Uri.EncodeUnreserved | lib/electives.ts:307 | unreserved text is its own encoding |
| Uri.EncodeSpace | lib/electives.ts:307 | a space becomes "%20" |
| Uri.EncodeAppend | lib/electives.ts:307 | encoding distributes over concatenation |
| Uri.DecodeAscii | lib/electives.ts:307 | decoding never lengthens the text; `AsciiRoundTrip` shows it undoes the encoding of ASCII text |
| Uri.AsciiRoundTrip | lib/electives.ts:307 | decoding the encoding of ASCII text gives the text back |
| CourseLinks.AaeShape | lib/electives.ts:284-285 | the AAE codes are three capitals, a space and four digits |
| CourseLinks.BioBmeShape | lib/electives.ts:286-287 | the BIO and BME codes have that shape |
| CourseLinks.CheChmShape | lib/electives.ts:287-288 | the CHE and CHM codes have that shape |
| CourseLinks.CieShape | lib/electives.ts:289-290 | the CIE codes have that shape |
| CourseLinks.DseEceShape | lib/electives.ts:290-292 | the DSE and ECE codes have that shape |
| CourseLinks.EleHumShape | lib/electives.ts:292-294 | the ELE and HUM codes have that shape |
| CourseLinks.IceToMieShape | lib/electives.ts:294-296 | the ICE, ICT, MAT and MIE codes have that shape |
| CourseLinks.ValidCodeShape | lib/electives.ts:283-297 | every code with a page is three capitals, a space and four digits, from one of fourteen departments |
| CourseLinks.HasValidCoursePage | lib/electives.ts:300-302 | a code with a page is three capitals, a space and four digits, from one of the fourteen departments |
| CourseLinks.EncodeCourseCode | lib/electives.ts:307 | such a code is encoded by replacing its space with "%20", and decodes back |
| CourseLinks.GetCoursePageUrl | lib/electives.ts:305-308 | the result is `null` exactly when the code has no page; otherwise it is the course path followed by a URL-safe segment that decodes back to the code |
| CourseLinks.ShapedCodeUrl | lib/electives.ts:307 | the link of a shaped code is the course path and the code with "%20" for its space |
| CourseLinks.ValidCodeUrl | lib/electives.ts:300-308 | every code with a page gets the link with its space escaped |
| CourseLinks.UnlistedDepartment | lib/electives.ts:283-308 | a code outside the fourteen departments has no page and no link |
| CourseLinks.FirstCodeEscaped | lib/electives.ts:307 | "AAE 4311" escapes to "AAE%204311" |
| CourseLinks.FirstCourseLink | lib/electives.ts:305-308 | "AAE 4311" links to the course path followed by "AAE%204311" |
| CourseLinks.UnlistedCourseLink | lib/electives.ts:305-308 | "IIE 4315", a course of the table, has no link |
| Text.LowerChar | lib/electives.ts:222 | `toLowerCase` moves A–Z to a–z and leaves every other character |
| Text.ToLower | lib/electives.ts:222 | lower-casing keeps the length and works character by character |
| Text.IndexOf | lib/electives.ts:22 | `indexOf` is -1 or a position where the pattern occurs, with no occurrence before it |
| Text.IndexOfAt | lib/electives.ts:22 | an occurrence is the first when a character of the pattern is absent before it |
| Text.IndexOfAbsent | lib/electives.ts:22 | a pattern with a character absent from the text is not found |
| Text.IncludesIffOccurs | lib/electives.ts:224-226 | `includes` holds exactly when the text occurs somewhere |
| Text.Trim | lib/electives.ts:24-25 | `trim` leaves no white space at either end |
| Text.TrimKeepsMiddle | lib/electives.ts:24-25 | `trim` keeps a slice of the text with only white space before and after it |
| Text.TrimFixesTrimmed | lib/electives.ts:24-25 | text with no white space at either end is its own trim |
| Text.TrimIdempotent | lib/electives.ts:39 | trimming twice is trimming once |
| Text.LexCompare | lib/electives.ts:245 | the string comparison is -1, 0 or 1, and 0 exactly for equal strings |
| Text.LexIrreflexive | lib/electives.ts:245 | no string sorts before itself |
| Text.LexTransitive | lib/electives.ts:245 | the string order is transitive |
| Text.LexTrichotomy | lib/electives.ts:245 | any two strings are equal or ordered one way, and not both ways |
| Text.LexCompareAntisymmetric | lib/electives.ts:245 | swapping the strings negates the comparison |
| Text.LexCompareTransitive | lib/electives.ts:245 | the comparison is transitive, strictly when either step is strict |
| Seqs.Keep | lib/electives.ts:213-228 | `filter` never lengthens the list |
| Seqs.KeepMembers | lib/electives.ts:213-228 | `filter` keeps exactly the elements that pass |
| Seqs.KeepCount | lib/electives.ts:213-228 | `filter` keeps each passing element as often as it occurs |
| Seqs.KeepKeep | lib/electives.ts:213-228 | two filters in a row are one filter by both conditions |
| Seqs.KeepAppend | lib/electives.ts:214 | filtering distributes over concatenation |
| Seqs.Prefix | components/elective-dashboard.tsx:51-52 | `slice(0, n)` has min(n, length) elements, each the element at that index |
| Sorting.InsertPos | lib/electives.ts:230-246 | an element is inserted after every element that does not sort after it |
| Sorting.SortSorted | lib/electives.ts:230-246 | the sort's result is ordered by the comparator |
| Sorting.SortPermutation | lib/electives.ts:230-246 | the sort's result is a permutation of its input |
| Sorting.SortStable | lib/electives.ts:230-246 | the sort keeps elements that compare equal in their input order |
| Sorting.StableSortUnique | lib/electives.ts:230-246 | a sorted, stable permutation is unique, so any conforming engine gives the same result |
| Sorting.OppositeSortReverses | lib/electives.ts:231-246 | sorting by the negated comparator reverses the result when there are no ties |
| Dashboard.Found | components/elective-dashboard.tsx:46-52 | with an empty query every record is found, so the palette then shows the first eight records |
| Dashboard.QuickSearchResults | components/elective-dashboard.tsx:46-52 | the palette shows the first eight matching records in data order: as many as match, at most eight, each the matching record at that position |
| Dashboard.QuickResultsMatch | components/elective-dashboard.tsx:46-52 | every result is a record of the data that matches the query |
| Dashboard.QuickResultsInGrid | components/elective-dashboard.tsx:46-52 | a record the palette finds is on the grid when the grid is searched for the same text |
| Dashboard.ClearedFiltersShow | components/elective-dashboard.tsx:401-405 | with the filters cleared every record of the data is on the grid |
| Dashboard.ClearedFiltersShowAll | components/elective-dashboard.tsx:576-583 | with the filters cleared the grid is a permutation of the whole data |
| Dashboard.NextIndex | components/elective-dashboard.tsx:91-94 | ArrowDown moves one down, stays on the last result when it is already there, and goes to -1 when there are none |
| Dashboard.PrevIndex | components/elective-dashboard.tsx:95-98 | ArrowUp moves one up but not above the first result |
| Dashboard.ToggledSort | components/elective-dashboard.tsx:421-428 | the clicked column becomes the sort column; the same column flips the direction, another column sorts ascending |
| Dashboard.ToggleSortTwice | components/elective-dashboard.tsx:421-428 | clicking a column twice gives back its direction, or descending for a new column |
| Dashboard.CardId | components/elective-dashboard.tsx:271 | the card `id` is "elective-", the code, "-" and the type |
| Dashboard.CardIdInjective | components/elective-dashboard.tsx:405-410 | for codes of the table's shape two records share an `id` exactly when they share code and type, so the highlight names one card |
| Dashboard.Dashboard.constructor | components/elective-dashboard.tsx:367-386 | the initial state: no search, every type and department, cutoff ascending, palette closed, nothing highlighted, and the grid shows every record |
| Dashboard.Dashboard.Refilter | components/elective-dashboard.tsx:378-386 | the memo is `filterElectives` of the current settings, and nothing else changes |
| Dashboard.Dashboard.SetSearch | components/elective-dashboard.tsx:504 | the search changes, the grid follows, and the rest of the state is kept |
| Dashboard.Dashboard.SetTypeFilter | components/elective-dashboard.tsx:511 | the type filter changes, the grid follows, and the rest of the state is kept |
| Dashboard.Dashboard.SetDeptFilter | components/elective-dashboard.tsx:523 | the department filter changes, the grid follows, and the rest of the state is kept |
| Dashboard.Dashboard.ToggleSort | components/elective-dashboard.tsx:421-428 | the sort column and direction become `ToggledSort` of the old ones, and the grid follows |
| Dashboard.Dashboard.ClearFilters | components/elective-dashboard.tsx:576-583 | the search is emptied, both selects go back to "all", and the sort and palette are kept |
| Dashboard.Dashboard.SelectElective | components/elective-dashboard.tsx:401-419 | the filters are cleared, the record's card is highlighted, and a record of the data is then on the grid |
| Dashboard.Dashboard.HighlightExpired | components/elective-dashboard.tsx:417 | the highlight is removed and nothing else changes |
| Dashboard.Dashboard.ResetPalette | components/elective-dashboard.tsx:54-60 | opening the palette empties its query and selects the first result |
| Dashboard.Dashboard.ToggleCommand | components/elective-dashboard.tsx:389-399 | Ctrl+K flips the palette, and opening it resets its query and index |
| Dashboard.Dashboard.OpenCommand | components/elective-dashboard.tsx:454 | the search button opens the palette and resets it unless it was already open |
| Dashboard.Dashboard.CloseCommand | components/elective-dashboard.tsx:62-75 | Escape, the backdrop and the close button close the palette and change nothing else |
| Dashboard.Dashboard.SetQuery | components/elective-dashboard.tsx:77-79 | typing sets the query and goes back to the first result when the text changes |
| Dashboard.Dashboard.ArrowDown | components/elective-dashboard.tsx:91-94 | the index becomes `NextIndex` of the old one, within the results when there are any |
| Dashboard.Dashboard.ArrowUp | components/elective-dashboard.tsx:95-98 | the index becomes `PrevIndex` of the old one |
| Dashboard.Dashboard.Enter | components/elective-dashboard.tsx:99-105 | when the index names a result, that record is selected, shown on the grid and the palette closes; otherwise nothing changes |
| Dashboard.Dashboard.ClickResult | components/elective-dashboard.tsx:158 | a click selects that result, shows it on the grid and closes the palette |

## Left out

- The JSX, styling, focus, `scrollIntoView`, and the `data-index` lookup are rendering or DOM effects and are not modelled. The timers are only modelled as the `HighlightExpired` event.
- Dashboard.Dashboard.HighlightExpired: it clears the highlight unconditionally. In the source, a 2-second timer from an earlier selection can also clear a highlight set by a later one. Timer interleaving is not modelled.
- Dashboard.Dashboard.ClearFilters: it does not repeat in its own contract that the grid then holds every record. `ClearedFiltersShowAll` states that about the new settings.
- The Escape key is handled both by the document listener and by the input's `onKeyDown`. Both call `onClose`, which is idempotent, so the model has one `CloseCommand`.
- `useMemo` of `getStats()` and `getDepartments()` is not modelled. Both are pure functions of the constant data.
- The `electiveData` table is not transcribed. It is a parameter; only rows 67, 70, 71 and 101 are checked one by one.
- Text.LexCompare: `localeCompare` (lib/electives.ts:245) depends on the locale's collation. The model uses code-point lexicographic order, which is only an approximation of it.
- Text.LexCompare: `sort()` with no comparator (lib/electives.ts:195) compares UTF-16 code units. The model compares code points. The two orders agree except between characters above U+FFFF and characters from U+E000 to U+FFFF.
- Text.LowerChar: `toLowerCase` folds only A–Z in the model, not the rest of Unicode. `/i` without the `u` flag folds the same way in the model.
- The CGPAs are `real`, not IEEE doubles. Rounding and NaN are not modelled, and the comparators use the exact sign of the difference.
- Sorting.SortSorted: the sort is specified as a stable sort by a consistent comparator, which is what ECMA-262 requires. The engine's own algorithm is not modelled; `StableSortUnique` shows that every such sort gives the same result.
- An absent `type`, `department` or `search` is modelled as "", which the source treats the same way because both are falsy. An absent `sortBy` is modelled as "name", which it falls back to.
- Text.IndexOf: JavaScript's `indexOf` and `substring` count UTF-16 code units, while the model counts code points. The "index below 15" test therefore differs on text with characters above U+FFFF: eight such characters followed by " - X" put " - " at index 16 in JavaScript, so no split, but at index 8 in the model, which splits there.
- Uri.EncodeURIComponent: Dafny characters are Unicode scalar values, so lone surrogates and the `URIError` they raise cannot occur.
- Uri.DecodeAscii: it decodes only single-byte escapes. That is all the encoding of an ASCII course code contains.
- The page's `sortBy` state only takes the three button keys. "difficulty" is reachable only through `filterElectives` directly.
