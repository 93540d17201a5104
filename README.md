# VM name sanitiser of the WordPress host Pulumi program

The program declares one Google Compute Engine VM and its reserved external
address. Its only logic of its own picks the VM name: a configured `vmName`,
else `wp-<BUILD_NUMBER>`, else `wp-<UTC timestamp>`. The chosen string then
goes through `sanitize`, which forces it into label syntax. The label syntax
is a lower-case form of section 2.3.1 of RFC 1035: it starts with a letter,
ends with a letter or digit, and has only letters, digits and hyphens in
between. It is 1 to 63 characters long, and `sanitize` also never leaves two
hyphens in a row.

The model has three modules:

- `Labels` (`labels.dfy`): the character classes and the predicate
  `IsLabel` for a valid VM name.
- `Sanitizer` (`sanitize.dfy`): each step of `sanitize`, in the source's
  order. `Lower` lower-cases, `ReplaceInvalid` maps every character outside
  `[a-z0-9-]` to `-`, `Collapse` turns each run of hyphens into one, and
  `Strip` removes hyphens at both ends. Then `DefaultName` applies the
  `wp` default, `LetterFirst` the `w` prefix, `Cut` the cut to 63
  characters and `PatchEnd` the `0` patch; `Finish` chains these four.
  `Sanitize` composes them, and the lemmas state its properties.
- `VmName` (`vm_name.dfy`): the three-way choice of the raw name, as a pure
  function of the configured name, the build number and the timestamp.
  Python truthiness ("present and non-empty") is the predicate `Truthy`.

`str.lower` is modelled per character and on ASCII only: `A`-`Z` become
`a`-`z` and every other character is kept. Any other character then
becomes `-` in the next step anyway. `re.sub(r"-{2,}", "-", …)` is modelled
by `Collapse`, which drops every hyphen that another hyphen follows. That
leaves exactly one hyphen of each run, as the regular expression does:
`CollapseRun` shows that a run collapses as a single hyphen would, and
`CollapseNoDouble` that a string with no `--` is left alone.

## Model

| member | source | states |
|---|---|---|
| `Sanitizer.LowerChar` | __main__.py:21 | the result is never an upper-case letter; an upper-case letter becomes its own lower-case letter (`A` to `a`, … `Z` to `z`) and every other character is kept |
| `Sanitizer.Lower` | __main__.py:21 | lower-casing is a per-character map that keeps the length and leaves no upper-case letter |
| `Sanitizer.LowerFixedIff` | __main__.py:21 | lower-casing changes nothing if and only if the string has no upper-case letter |
| `Sanitizer.LowerIdempotent` | __main__.py:21 | lower-casing twice is the same as lower-casing once |
| `Sanitizer.ReplaceInvalid` | __main__.py:22 | same length; every character is in `[a-z0-9-]`; characters already in that class are kept and all others become `-` |
| `Sanitizer.ReplaceInvalidFixedIff` | __main__.py:22 | the replacement changes nothing if and only if every character is already in `[a-z0-9-]` |
| `Sanitizer.Collapse` | __main__.py:23 | the result has no `--`, is empty only for an empty input, keeps the first and last characters, and is no longer than the input; an input over `[a-z0-9-]` gives a result over `[a-z0-9-]`, and an all-hyphen input an all-hyphen result |
| `Sanitizer.CollapseMergesPair` | __main__.py:23 | a `--` anywhere in a string collapses exactly as a single `-` in its place would |
| `Sanitizer.CollapseRun` | __main__.py:23 | a run of one or more hyphens anywhere collapses exactly as a single `-` in its place would |
| `Sanitizer.CollapseRunToOne` | __main__.py:23 | between two `--`-free pieces with no hyphen next to the run, a run of one or more hyphens becomes exactly one hyphen |
| `Sanitizer.CollapseExample` | __main__.py:23 | `a--b` becomes `a-b` |
| `Sanitizer.CollapseNoDouble` | __main__.py:23 | a string with no `--` is left unchanged by collapsing |
| `Sanitizer.CollapseShortens` | __main__.py:23 | a string with a `--` becomes strictly shorter |
| `Sanitizer.CollapseFixedIff` | __main__.py:23 | collapsing changes nothing if and only if the input has no `--` |
| `Sanitizer.CollapseKeepsNonHyphens` | __main__.py:23 | collapsing only removes hyphens: the non-hyphen characters survive in order |
| `Sanitizer.StripLeading` | __main__.py:23 | the result is the suffix left after removing a prefix made only of hyphens, and it does not start with a hyphen |
| `Sanitizer.StripTrailing` | __main__.py:23 | the result is the prefix left after removing a suffix made only of hyphens, and it does not end with a hyphen |
| `Sanitizer.Strip` | __main__.py:23 | no hyphen at either end; empty if and only if the input is all hyphens; the identity on input with no hyphen at either end; keeps `[a-z0-9-]`-only and `--`-free input so |
| `Sanitizer.Tidied` | __main__.py:21-23 | after lower-casing, replacing, collapsing and stripping, the string is over `[a-z0-9-]`, has no `--` and has no hyphen at either end |
| `Sanitizer.DefaultName` | __main__.py:24 | an empty tidy name becomes non-empty and stays tidy; a non-empty one is kept |
| `Sanitizer.LetterFirst` | __main__.py:25 | the result starts with a letter and ends with a letter or digit; a name that starts with a letter is kept; otherwise it started with a digit and gains a leading `w` |
| `Sanitizer.Cut` | __main__.py:26 | the result is the prefix of length min(n, 63) and still starts with a letter, has only `[a-z0-9-]` and no `--` |
| `Sanitizer.PatchEnd` | __main__.py:27 | the result is a valid label of the same length that differs at most in the last character; it is unchanged when that character is already a letter or digit, and otherwise that character becomes `0` |
| `Sanitizer.Finish` | __main__.py:24-27 | from a tidy string, the `wp` default, the `w` prefix, the cut to 63 and the `0` patch always give a valid label |
| `Sanitizer.TidiedTidy` | __main__.py:21-23 | the first four steps leave unchanged a string that is over `[a-z0-9-]`, has no `--` and no hyphen at either end |
| `Sanitizer.FinishLabel` | __main__.py:24-27 | the last four steps leave a valid label unchanged |
| `Sanitizer.Sanitize` | __main__.py:20-28 | every result is a valid label: 1 to 63 characters from `[a-z0-9-]`, first a letter, last a letter or digit, no `--` |
| `Sanitizer.SanitizeFixedIff` | __main__.py:20-28 | `sanitize(s) == s` if and only if `s` is already a valid label |
| `Sanitizer.SanitizeIdempotent` | __main__.py:20-28 | `sanitize(sanitize(s)) == sanitize(s)` |
| `Sanitizer.SanitizeIgnoresCase` | __main__.py:21 | lower-casing the input first changes nothing |
| `Sanitizer.SanitizeNoAlnumIsDefault` | __main__.py:22-24 | an input with no character that lower-cases into `[a-z0-9]`, the empty input included, gives exactly `wp` |
| `Sanitizer.SanitizeDigits` | __main__.py:25 | an all-digit input of 1 to 62 characters gives `w` followed by the input |
| `Sanitizer.SanitizeExamples` | __main__.py:22-25 | `""` gives `wp` and `"123"` gives `w123` |
| `Sanitizer.SanitizeCutsLongNames` | __main__.py:26 | when the tidied name has 63 characters or more, the result has exactly 63 |
| `Sanitizer.TidiedKeepsWp` | __main__.py:21-23 | tidying any `wp-…` input leaves `wp` at the front |
| `Sanitizer.FinishKeepsWp` | __main__.py:24-27 | the last four steps keep a leading `wp` |
| `Sanitizer.SanitizeKeepsWpPrefix` | __main__.py:23-27 | any `wp-…` input gives a name that starts with `wp` |
| `VmName.ChooseName` | __main__.py:30-39 | whichever source the name comes from, it is a valid label |
| `VmName.FallbackDigitsIsLabel` | __main__.py:36-39 | `wp-` followed by 1 to 60 digits is already a valid label |
| `VmName.ConfigWins` | __main__.py:31-32 | a non-empty configured name decides the result alone, whatever the build number and timestamp |
| `VmName.ConfigLabelVerbatim` | __main__.py:31-32 | a configured name that is already a valid label is used unchanged |
| `VmName.EmptyConfigIsUnset` | __main__.py:31 | an empty configured name is treated as an absent one |
| `VmName.BuildNumberWins` | __main__.py:33-36 | without a configured name, a non-empty build number decides the result, whatever the timestamp |
| `VmName.EmptyBuildIsUnset` | __main__.py:35 | an empty build number is treated as an absent one |
| `VmName.BuildNumberName` | __main__.py:34-36 | without a configured name, a numeric build number of 1 to 60 digits gives exactly `wp-<build>` |
| `VmName.TimestampName` | __main__.py:37-39 | with neither a configured name nor a build number, a 14-digit timestamp gives exactly `wp-<timestamp>`, 17 characters |
| `VmName.FallbackStartsWithWp` | __main__.py:33-39 | without a configured name, the chosen name always starts with `wp` |

## Left out

- The resource declarations `get_subnetwork`, `Address` and `Instance` (__main__.py:41-84) are calls into the Google Cloud provider library, whose behaviour is not visible. They are not modelled.
- Reading the configuration, the environment and the clock (`Config.require`/`Config.get`, `os.getenv`, `datetime.utcnow`, __main__.py:8-17, 30, 34, 38) is I/O. The values read become parameters of `VmName.ChooseName`. The SSH key's `.strip()` at line 8 feeds only a resource and is not modelled.
- The timestamp format `%Y%m%d%H%M%S` (__main__.py:38) is not computed from a date. `VmName.TimestampName` takes any 14-digit string as the timestamp.
- The exports and the `Output.apply` lambda for `vmIp` (__main__.py:86-88) wrap the library's deferred `Output` type. They are not modelled.
- The derived names `<vm_name>-addr` and `<vm_name>-ip` (__main__.py:44-45) are not sanitised again and can reach 68 and 66 characters. The model claims no bound for them.
- Sanitizer.Lower: models Python's `str.lower` on ASCII letters only. Full Unicode lower-casing can change the length (U+0130 becomes two characters) or map a non-ASCII character into `[a-z]` (the Kelvin sign becomes `k`). The model keeps such characters as they are, so they become `-` at the next step.
- Regular expressions are modelled by what they match on these fixed patterns. Python's `$` also matches before a final newline, but a newline has already become `-` by line 27, so this makes no difference.
