# Near-Earth objects: database, filters and date helpers in Dafny

This project models the core of a small Python program about near-Earth objects (NEOs) and their close approaches to Earth. The core has four parts:

- `NEODatabase` joins the NEOs to their close approaches by designation. It looks NEOs up by designation or by name. It streams the close approaches that pass a list of filters.
- The filters: comparator-based filters on the date, distance, velocity, diameter or hazard flag of an approach; the factory `create_filters` that builds them from the user's options; and `limit`.
- The constructors of `NearEarthObject` and `CloseApproach`, which coerce raw field values. This part also covers `time_str` and `NearEarthObject.serialize`.
- `cd_to_datetime` and `datetime_to_str`. The first parses NASA's `YYYY-Mon-DD hh:mm` timestamps. The second renders a timestamp as `YYYY-MM-DD hh:mm`.

Everything is modelled as pure functions over immutable values:

- Each Python object reference becomes a value or a position. An NEO lists its approaches as positions in the database's sequence of approaches. A linked approach holds the linked NEO as a value.
- Python's `None` and a NaN float are both `Option.None`.
- A generator is a `Stream`: the items it yields, plus the exception it raises after them, if any.
- An exception a function raises is an `Err` result.

Modules, one per file:

- `Common` holds `Option`, `Result` and `Stream`.
- `Text` holds the few `str` primitives the model needs.
- `Helpers` models helpers.py.
- `Floats` models the `float()` conversion the constructors rely on: a grammar of decimal literals, their values, and a reader proved against both.
- `Models` models models.py.
- `Filters` models filters.py.
- `Database` models database.py.

database.py is an unfinished draft. The model follows what its documentation promises, and the module comment of `Database` lists each line that does otherwise:

- database.py:47 never calls the linking method.
- database.py:65-67 use attribute names that do not exist.
- database.py:97 and database.py:116 capitalise the lookup key.
- database.py:137 never calls the filters.
- database.py:139-141 is a `for`/`else` misindentation.

The deviations that change results rather than raise are under "## Findings". Each is modelled both as written and as corrected. The two capitalisation findings only show once database.py:47, database.py:65-67 and the `_neos_to_names` name at database.py:116 are repaired. Until then, those lines raise `AttributeError` before a lookup runs.

## Model

| member | source | states |
|---|---|---|
| Text.Strip | models.py:52 | `str.strip()` gives the empty string exactly when the name is empty or all whitespace |
| Text.ZeroPad | helpers.py:39 | a `%Y`/`%m`/`%d`/`%H`/`%M` field has exactly the requested width, is all ASCII digits, and reads back as the value it renders |
| Text.ZeroPadOfDigits | helpers.py:39 | rendering the value of a digit string at its own width gives the string back |
| Helpers.MonthNumber | helpers.py:25 | the month lookup finds a `%b` field exactly when its lower case is that of one of Jan..Dec, and yields that month's number; otherwise no month lies behind the field |
| Helpers.MonthNumberMatches | helpers.py:25 | a field the month lookup finds is one the `%b` group matches |
| Helpers.MonthNumberOfAbbreviation | helpers.py:25 | each of the twelve abbreviations is read as its own month and no other |
| Helpers.DayField | helpers.py:25 | a `%d` field is one or two ASCII digits, or a space and one digit, and yields the day from 1 to 31 that those digits denote, with the position after them |
| Helpers.HourField | helpers.py:25 | a `%H` field is one or two ASCII digits and yields the hour from 0 to 23 that they denote |
| Helpers.MinuteField | helpers.py:25 | a `%M` field is one or two ASCII digits and yields the minute from 0 to 59 that they denote |
| Helpers.SpaceRun | helpers.py:25 | the whitespace run that the space in the format matches stops only at the end of the string or at a character that is not whitespace |
| Helpers.SpaceRunIsBlank | helpers.py:25 | every character of that run is Python whitespace, so the run is the longest one at that point |
| Helpers.ClockFields | helpers.py:25 | a successful parse of the text after the month yields a day from 1 to 31, an hour from 0 to 23 and a minute from 0 to 59 |
| Helpers.ClockFieldsLayout | helpers.py:25 | what the clock part accepted is a day field, a non-empty run of whitespace, an hour field, `:` and a minute field that reaches the end of the string, each denoting the value read |
| Helpers.ClockFieldsOfSteps | helpers.py:25 | conversely, a day, a whitespace run, an hour, `:` and a minute reaching the end are read as exactly those values |
| Helpers.CdToDatetime | helpers.py:14-25 | a successful parse reads a four-digit year, `-`, a month abbreviation, `-`, and the day and clock fields to the end of the string; the result is a valid date-time; a matched month the lookup does not find raises `ValueError`, as does any other input |
| Helpers.CdToDatetimeExample | helpers.py:17-20 | `2020-Dec-31 12:00` parses to 2020-12-31 12:00 |
| Helpers.CdToDatetimeOfUnknownMonth | helpers.py:25 | a string the pattern matches in full, whose month field the lookup does not find, raises `ValueError` |
| Helpers.LongSMonthRejected | helpers.py:25 | `2020-ſep-01 12:00` raises `ValueError`: the `%b` group matches the long s under `IGNORECASE`, but the lower case of `ſep` is not a month abbreviation |
| Helpers.DatetimeToStr | helpers.py:28-39 | the rendering is 16 characters long, with no seconds |
| Helpers.DatetimeToStrFields | helpers.py:28-39 | the rendering is zero-padded `YYYY-MM-DD hh:mm`, with each field reading back as the timestamp's own value |
| Helpers.CdToDatetimeOfNasaFormat | helpers.py:14-25 | parsing NASA's rendering of any timestamp recovers that timestamp |
| Helpers.DatetimeToStrReplacesMonth | helpers.py:28-39 | `datetime_to_str` gives NASA's rendering with the month abbreviation replaced by its two-digit number |
| Helpers.NasaFormatOfCdToDatetime | helpers.py:14-25 | a canonical NASA timestamp that parses is rendered back by NASA's format unchanged |
| Helpers.DatetimeToStrOfCdToDatetime | helpers.py:14-39 | round trip: formatting the parse of a canonical NASA timestamp gives the input with the month abbreviation replaced by its two-digit number |
| Floats.ParseFloat | models.py:58-61 | `float()` of a string succeeds exactly when the string, stripped of the whitespace `float()` strips (ASCII and non-ASCII whitespace, but not the separators U+001C..U+001F that `str.strip()` also removes), is the text of a decimal literal (optional sign, digits with an optional fraction and at least one digit, optional exponent with digits), and the result is that literal's value |
| Floats.SignedDecimalOfLiteral | models.py:58-61 | the reader reads the text of every literal of the grammar as the literal's value |
| Floats.LiteralOfSignedDecimal | models.py:58-61 | whatever the reader accepts is the text of a literal of the grammar |
| Floats.ParseFloatOfLiteral | models.py:58-61 | a literal of the grammar, with or without surrounding whitespace of the kind `float()` strips, converts to its value |
| Floats.ParseFloatOfDigits | models.py:58-61 | `float()` of a string of digits is the number it spells |
| Floats.ParseFloatOfScientific | models.py:58-61 | ` -1.5e1 ` converts to -15: sign, fraction, exponent and surrounding whitespace together |
| Floats.ParseFloatRejectsTwoPoints | models.py:58-61 | `1.2.3` raises `ValueError`, so the value is unknown |
| Floats.ParseFloatRejectsBareExponent | models.py:58-61 | `1e` raises `ValueError`: an exponent needs digits |
| Floats.ParseFloatRejectsBarePoint | models.py:58-61 | `.` raises `ValueError`: a literal needs a digit |
| Floats.ParseFloatKeepsSeparator | models.py:58-61 | `"\x1c1"` raises `ValueError`: `float()` keeps the separator U+001C although `str.strip()` would remove it |
| Floats.ParsedHasDigit | models.py:58-61 | every string `float()` accepts holds an ASCII digit, so a value without one is unknown |
| Models.ToFloat | models.py:162-169 | a float is kept, a NaN is unknown, and a string converts as `float()` does (its own whitespace strip, then the decimal grammar), with `ValueError` giving unknown |
| Models.IsHazardCode | models.py:63-68 | the hazard code means hazardous exactly when it is `y` or `Y` |
| Models.NewNearEarthObject | models.py:39-70 | the designation is kept; a blank name becomes `None` and any other name is kept as given; a float diameter is kept, a NaN one is unknown, and a string diameter is what `float()` makes of it; hazardous exactly for `y`/`Y`; no approaches yet |
| Models.NewCloseApproach | models.py:150-171 | a missing or empty designation becomes `""`; a missing or empty time becomes `None` without parsing; any other time is parsed, and its `ValueError` is raised; distance and velocity are coerced; the NEO is the one passed in |
| Models.TimeStr | models.py:200-221 | `time_str` is empty exactly when there is no time, and otherwise it is `datetime_to_str` of the time |
| Models.Serialize | models.py:120-131 | designation and hazard flag are copied; a missing name is written as `""`; an unknown or zero diameter is written as NaN, and any other diameter is kept |
| Filters.DateFilterIgnoresTimeOfDay | filters.py:65-72 | a date filter gives the same verdict on two approaches of the same calendar date, whatever their times of day |
| Filters.DateKeyOrder | filters.py:65-72 | dates compare as their numeric keys do, so a date filter compares calendar dates in Python's order |
| Filters.Call | filters.py:49-105 | calling a filter evaluates `op(get(approach), value)` with the value on the right; an unknown number fails every comparison; a missing time or NEO raises |
| Filters.CreateFilters | filters.py:108-139 | the filters are exactly those the options ask for, in argument order: eq/ge/le date filters for any given date, ge/le filters for non-zero numeric bounds, and an eq hazard filter whenever that option is not `None` |
| Filters.CreateFiltersOfNothing | filters.py:108-139 | with no option given, no filter is built, so the query yields every approach |
| Filters.FiltersFrom | filters.py:117-139 | the filters of the arguments from a given position on, each once, in argument order |
| Filters.Limit | filters.py:142-151 | `None` or `0` leave the stream unchanged; otherwise the result is the first `min(n, len)` items, and an error after the `n`-th item is never reached |
| Filters.LimitTwice | filters.py:142-151 | limiting to `m` and then to `n` is limiting to the smaller of the two |
| Database.NewDatabase | database.py:23-49 | construction keeps every NEO and every approach, in order, and changes only their links; an approach whose designation names an NEO references a linked NEO with that designation, and any other approach is left as it was |
| Database.LastIndex | database.py:59-61 | a dict comprehension maps each key present to the position of its last occurrence |
| Database.OwnedBy | database.py:63-67 | the approaches linked to an NEO are exactly those whose designation the index sends to it, in input order |
| Database.LinkNeos | database.py:63-67 | linking keeps every NEO, changes only its list of approaches, extends that list, and keeps all designations and names |
| Database.DesignationIndexed | database.py:59-61 | a designation is in the index exactly when some NEO carries it |
| Database.LinkApproach | database.py:63-66 | an approach whose designation names an NEO is linked to a linked NEO with that designation; any other approach is unchanged; nothing but the link changes |
| Database.LinkApproaches | database.py:63-66 | linking keeps every approach in order and changes only its `neo`: an approach whose designation names an NEO references a linked NEO with that designation, and any other approach is unchanged |
| Database.IndexOfUniqueDesignation | database.py:49 | with unique designations, the index sends each NEO's designation to that NEO |
| Database.NeoApproachesInOrder | database.py:33-36 | for unlinked input with unique designations, after construction each NEO lists exactly the approaches with its designation, in input order |
| Database.OrphanStaysUnlinked | database.py:63-67 | an approach whose designation names no NEO stays unlinked and is listed under no NEO |
| Database.GetNeoByDesignation | database.py:83-97 | the lookup returns an NEO with exactly that designation, and `None` exactly when no NEO has it |
| Database.GetNeoByName | database.py:101-117 | the lookup returns an NEO with exactly that name, and `None` exactly when no NEO has it |
| Database.FindsEveryDesignation | database.py:86-88 | every NEO is found by its own designation |
| Database.FindsEveryName | database.py:104-107 | every named NEO is found by its own name |
| Database.BlankNameFindsNothing | database.py:106-107 | when no NEO has a blank name, as the constructor ensures, a blank name, the empty string included, finds nothing |
| Database.AllPass | database.py:137 | an approach passes exactly when every filter accepts it; otherwise the verdict is the first rejection or error, in filter order |
| Database.AllPassRejects | database.py:137 | one rejecting filter makes the conjunction false when no filter raises |
| Database.Select | database.py:134-138 | only approaches that pass every filter are yielded; an error is raised exactly when some approach makes a filter raise, and it is that filter's error |
| Database.SelectUpToError | database.py:134-138 | when a filter first raises on approach `j`, the generator has yielded exactly the matching approaches before `j`, in order, and raises that first error |
| Database.Query | database.py:119-141 | with no filter every approach is yielded, in order; with filters, only approaches passing all of them are yielded, and an error is raised exactly when some filter raises on some approach |
| Database.QueryUpToError | database.py:119-141 | when the filters first raise on approach `j`, the query yields the approaches before `j` that satisfy every filter, in order, then raises that first error |
| Database.LimitedQueryBeforeError | database.py:134-138 | limited to `n`, with at least `n` matches before the first approach a filter raises on, the query gives those `n` matches and never reaches the error, as `islice` stops pulling (filters.py:142-151) |
| Database.MatchingFront | database.py:121-122 | the reference selection can be unfolded from the front, as the generator runs |
| Database.MatchingAll | database.py:125 | with no filter the reference selection is every approach |
| Database.SelectIsMatching | database.py:134-138 | when no filter raises, the loop yields exactly the reference selection, in order |
| Database.QueryIsConjunction | database.py:119-131 | when no filter raises, the query yields, in order, exactly the approaches that satisfy every filter |
| Database.CreatedFiltersMeanCriteria | filters.py:108-139 | the filters `create_filters` builds accept a timed, linked approach exactly when it meets every given criterion, read directly off the options |
| Database.ProducedFilterAccepts | filters.py:118-137 | each filter made from the options accepts an approach that meets them |
| Database.FailedCriterion | filters.py:118-137 | an approach that misses some criterion is rejected by one of the filters `create_filters` builds |
| Database.ErosRecord | models.py:39-70 | the constructor builds 433 Eros with its name, its diameter, not hazardous, and no approaches |
| Database.ErosExample | database.py:31-36 | after linking one NEO, 433 Eros, with one approach, the NEO found by designation lists that approach, and the approach references Eros |
| Database.ErosListsApproach | database.py:33-36 | the NEO found by designation `433` lists exactly the one approach |
| Database.ErosReferenced | database.py:34-36 | the linked approach references the NEO named Eros |
| Database.GetNeoByDesignationAsWritten | database.py:97 | as written: the lookup can find only an NEO whose designation equals the capitalised key |
| Database.GetNeoByNameAsWritten | database.py:116 | as written: the lookup can find only an NEO whose name equals the capitalised key |
| Text.Capitalize | database.py:97 | on ASCII text, `str.capitalize()` keeps the length, upper-cases the first character and lower-cases every other one |
| Database.CapitalizedDesignationMisses | database.py:97 | `2019 SC8` finds its NEO exactly, but misses it once capitalised |
| Database.CapitalizedNameMisses | database.py:116 | `Adonis Ab` finds its NEO exactly, but misses it once capitalised |
| Database.QueryAsWritten | database.py:134-141 | as written: no filter yields nothing, and any filter yields every approach twice |
| Database.QueryAsWrittenIgnoresFilters | database.py:134-141 | an approach that a filter rejects is yielded twice as written and not at all as documented; with no filter it is yielded only as documented |

## Left out

- extract.py and write.py read and write CSV and JSON files. They are I/O and are not part of this model.
- `__str__`, `__repr__`, `fullname` and the first, overridden `NearEarthObject.serialize` (models.py:72-79) are left out. They are string formatting, or their behaviour is overridden or has no promise worth stating. `CloseApproach.serialize` is left out too.
- Floats are real numbers. Python's NaN, and so an unknown value, is `None`. Infinities and float rounding are not modelled. A criterion given as NaN is not modelled either.
- Floats.ParseFloat: parses the decimal literals `float()` accepts: surrounding whitespace, an optional sign, digits with an optional fraction, and an optional exponent. `inf`/`infinity`, underscores between digits, and non-ASCII digits are rejected here, although Python accepts them. `nan` is unknown in both.
- Models.NewNearEarthObject: the raw fields are strings or floats. `float(None)` raises `TypeError`, which is not caught, and that case is not modelled.
- Helpers.CdToDatetime: `\d` in the `strptime` pattern also matches non-ASCII decimal digits. Only ASCII digits are accepted here. The month names are those of the C locale.
- Helpers.DatetimeToStr: the year is rendered with four digits. This is `%Y` on glibc only for years from 1000 on. Below that, the padding depends on the platform.
- Text.Capitalize, Database.GetNeoByDesignationAsWritten, Database.GetNeoByNameAsWritten: `Capitalize` changes ASCII letters only. Python's `str.capitalize()` maps every cased character (`éros` becomes `Éros`, and `ß` becomes `Ss`, which changes the length). The keys of the counterexamples are ASCII, where the two agree.
- Database.GetNeoByName: the key is a string. Looking up `None` is not modelled. The lemmas about blank names assume the NEOs were built by their constructor.
- `NEODatabase.__init__` takes a third argument, `name`, and stores it unused (database.py:46). The name index is the one built at database.py:80.
- Draft lines that can only raise are not modelled as written:
  - database.py:47 never runs the linking method, so lookups would hit missing attributes.
  - database.py:65-67 read attributes that do not exist.
  - database.py:116 reads `_neos_to_names`, but database.py:80 builds `_neo_to_names`.
- Object identity and in-place mutation are not modelled. Linking returns new sequences, and an approach holds its NEO as a value.
- The order of `AttributeFilter` subclasses and their `__repr__` is not modelled. Neither is `UnsupportedCriterionError` from the base class, since the factory never builds a base-class filter.
- `limit` with a negative `n` is not modelled. `n` is a natural number.

## Findings

| source | as written | input that shows it | evidently intended | confidence | as-written member | corrected member |
|---|---|---|---|---|---|---|
| database.py:97 | the designation is capitalised before the exact lookup | once database.py:47, 65-67 are repaired (before that an `AttributeError` comes first), an NEO with designation `2019 SC8`: the key becomes `2019 sc8` and the lookup returns `None` | exact match, as database.py:90-91 says | high; not executed | Database.GetNeoByDesignationAsWritten, Database.CapitalizedDesignationMisses | Database.GetNeoByDesignation, Database.FindsEveryDesignation |
| database.py:116 | the name is capitalised before the exact lookup | once database.py:47, 65-67 and the `_neos_to_names` name at :116 are repaired (before that an `AttributeError` comes first), an NEO named `Adonis Ab`: the key becomes `Adonis ab` and the lookup returns `None` | exact match, as database.py:109-110 says | high; not executed | Database.GetNeoByNameAsWritten, Database.CapitalizedNameMisses | Database.GetNeoByName, Database.FindsEveryName |
| database.py:134-141 | the lambda never calls its filter, and the unfiltered loop is the `else` of the `for` | one approach at 0.15 au with the filter "distance at least 1": it is yielded twice; with no filter, nothing is yielded | only matching approaches when filtered, and every approach when not (database.py:121-125) | high; not executed | Database.QueryAsWritten, Database.QueryAsWrittenIgnoresFilters | Database.Query, Database.QueryIsConjunction |
