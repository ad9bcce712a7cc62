# IPX800 plugin settings: validators, URL builders and the save decision

A Dafny model of the settings logic of the IPX800 plugin for Vera home
controllers (`J_IPX800.js`). The plugin's settings panel lets a user type
the IPX800's address, an update frequency and three lists: the output
relays, the digital inputs and the analog inputs. Each value is checked by a
regular-expression validator before it is stored as a device variable. The
plugin talks to its host through two URL builders.

Modules, in dependency order:

- `Text` (`text.dfy`): digits and decimal values, and the separator-joined
  lists that the patterns' `(,X)*` and `(-X)*` repetitions spell.
  `Split` and `Join` are proved mutually inverse.
- `JsString` (`jsstring.dfy`): JavaScript's line terminators and white space,
  and `String.prototype.trim` (section 22.1.3.32 of ECMA-262). `Trim` is
  characterised as the unique slice with trimmable surroundings and
  untrimmable ends.
- `IpAddress` (`ip_address.dfy`): `goodip`. It has a declarative
  specification (a decomposition into octets, separators and a port) and a
  backtracking recogniser, which are proved equivalent.
- `CsvLists` (`csv_lists.dfy`): `goodint`, `goodcsv`, `goodcsvinput` and
  `goodcsvanalog`. The last three are instances of one list shape with
  per-position tag-letter sets. The recogniser is proved equivalent to the
  existence of a parse, and to a character-by-character rule. `goodint` is
  that shape's single tag-free entry of at least one digit
  (`GoodIntIsOneCsvEntry`).
- `OutputRelays` (`output_relays.dfy`): `goodcsvoutput`. A deterministic
  automaton reads each entry. It is proved equivalent to the existence of a
  parse into relay units, and glued units are allowed in the first entry
  only.
- `Urls` (`urls.dfy`): `buildVariableSetUrl` and `buildUPnPActionUrl`.
  Their partner is `ParseQuery`, which splits a query at every `&` and each
  piece at its first `=`, decoding nothing. It gives the builders'
  parameters back exactly when no field contains `&`.
- `Settings` (`settings.dfy`): the accept/reject decision of
  `validateAndSave` over a map of device variables, and the five `ipx_Set*`
  handlers, each with its validator and its trimming choice.

Two behaviours of the code are easy to miss:

- **`goodip`.** The pattern is built from a string literal. There `\.` is an
  escape that the literal resolves to a plain `.`, so the regular expression
  receives `.`, which matches any UTF-16 code unit except a line
  terminator. The code therefore accepts
  `"192.168.1"`, reading it as `1`, `9`, `2`, `.`, `168`, `.`, `1`
  (`IpAddress.ThreeNumbersAccepted`).
- **Trimming.** Only the three list handlers trim the value. The address and
  update-frequency handlers validate and store the raw value, so a padded
  address is refused (`Settings.RawSettersRefusePadding`).

## Model

| member | source | states |
|---|---|---|
| Text.JoinSplit | J_IPX800.js:30-50 | Joining the comma-separated parts of any string gives the string back, so cutting a list at its commas loses nothing |
| Text.SplitJoin | J_IPX800.js:30-50 | Cutting a join of separator-free entries at the separator gives exactly those entries back |
| Text.SplitCount | J_IPX800.js:54-64 | Cutting a string at a separator makes one more part than the string has separators |
| Text.DecimalString | J_IPX800.js:56 | The decimal rendering of the device number is a non-empty digit run with no leading zero, whose value is the number |
| JsString.Trim | J_IPX800.js:217 | `trim` returns a slice that is surrounded only by white space and line terminators and whose own ends are neither |
| JsString.TrimUnique | J_IPX800.js:217 | Any slice with trimmable surroundings and untrimmable ends is the result of `trim`, so the characterisation determines it |
| JsString.TrimIdempotent | J_IPX800.js:217 | Trimming a trimmed value changes nothing |
| IpAddress.GoodIp | J_IPX800.js:19-24 | Accepts exactly the strings of the form octet, separator, octet, separator, octet, separator, octet, optional port. Each octet follows the pattern's alternatives, each separator is any character of the Basic Multilingual Plane other than a line terminator (one UTF-16 code unit), and the port is `:` and one to five digits |
| IpAddress.MatchOctetsIsSpec | J_IPX800.js:22 | The backtracking recogniser that tries every octet length accepts a string iff it has a well-formed decomposition |
| IpAddress.MatchFromIsMatchOctets | J_IPX800.js:22 | Reading the string by index gives the same verdict as slicing it |
| IpAddress.GoodIpSound | J_IPX800.js:22 | Every accepted string has a well-formed decomposition |
| IpAddress.GoodIpComplete | J_IPX800.js:22 | Every well-formed decomposition spells an accepted string |
| IpAddress.OctetPatternIsByteValue | J_IPX800.js:22 | The three octet alternatives accept exactly the one- to three-digit strings whose decimal value is at most 255 |
| IpAddress.AcceptedParts | J_IPX800.js:22 | In an accepted address every octet is 1-3 digits of value at most 255, and the port is absent or `:` and 1-5 digits, with no range check |
| IpAddress.AcceptedShape | J_IPX800.js:19-24 | An accepted string is 7 to 21 characters long and begins and ends with a digit |
| IpAddress.AnySeparatorAccepted | J_IPX800.js:22 | Any three characters of the Basic Multilingual Plane that are not line terminators separate the octets |
| IpAddress.AcceptDotted | J_IPX800.js:22 | "192.168.1.1" is accepted |
| IpAddress.AcceptWithPort | J_IPX800.js:22 | "192.168.1.1:8080" is accepted |
| IpAddress.AcceptLargePort | J_IPX800.js:22 | "1.2.3.4:99999" is accepted: the port is not range-checked |
| IpAddress.ThreeNumbersAccepted | J_IPX800.js:22 | "192.168.1" is accepted, with a digit standing in for a separator |
| IpAddress.RejectEmpty | J_IPX800.js:22 | "" is refused |
| IpAddress.RejectLineTerminator | J_IPX800.js:22 | A line feed does not separate octets |
| IpAddress.RejectAstralSeparator | J_IPX800.js:22 | "1", U+1F600, "2.3.4" is refused: U+1F600 is two UTF-16 code units and `.` matches only one |
| IpAddress.Reject256 | J_IPX800.js:22 | "256.1.1.1" is refused |
| IpAddress.RejectLongPort | J_IPX800.js:22 | A six-digit port is refused |
| CsvLists.TaggedList | J_IPX800.js:30-50 | The shared list recogniser accepts exactly the strings that parse as a head entry (any digits, at most one head tag) followed by comma-led entries (at least one digit, at most one tail tag) |
| CsvLists.TaggedListCorrect | J_IPX800.js:30-50 | The comma-cut check and the parse specification agree in both directions |
| CsvLists.TaggedListByCharacters | J_IPX800.js:30-50 | A list is accepted iff every character is a digit, or a comma followed by a digit, or a tag from the right set at the end of its entry |
| CsvLists.GoodInt | J_IPX800.js:25-29 | `goodint` accepts exactly the non-empty strings of ASCII digits |
| CsvLists.GoodIntIsOneCsvEntry | J_IPX800.js:25-34 | `goodint` accepts exactly the non-empty, comma-free strings that `goodcsv` accepts |
| CsvLists.GoodCsv | J_IPX800.js:30-34 | `goodcsv` is the list shape with no tag letters |
| CsvLists.GoodCsvByCharacters | J_IPX800.js:30-34 | `goodcsv` accepts iff every character is a digit or a comma and every comma is immediately followed by a digit |
| CsvLists.GoodCsvExamples | J_IPX800.js:30-34 | "", ",1" and "1,5,6" are accepted |
| CsvLists.GoodCsvRejects | J_IPX800.js:30-34 | "1," and "1,,2" are refused |
| CsvLists.GoodCsvInput | J_IPX800.js:41-45 | `goodcsvinput` is the list shape with tags P, D and M in both positions, in either case |
| CsvLists.GoodCsvInputPlainExamples | J_IPX800.js:159 | "" and "1,2" are accepted |
| CsvLists.GoodCsvInputTaggedExamples | J_IPX800.js:43 | "P" and "1p" are accepted: the first entry may be a tag alone, in either case |
| CsvLists.GoodCsvInputTaggedList | J_IPX800.js:159 | "1P,2M" is accepted |
| CsvLists.UnknownTagRejected | J_IPX800.js:43 | "1X" is refused |
| CsvLists.DoubleTagRejected | J_IPX800.js:43 | "1PP" is refused: at most one tag per entry |
| CsvLists.CommaFreeList | J_IPX800.js:30-50 | A comma-free string is accepted iff it is a valid head entry on its own |
| CsvLists.GoodCsvAnalog | J_IPX800.js:46-50 | `goodcsvanalog` is the list shape with head tags T, L and tail tags T, L, H, in either case |
| CsvLists.GoodCsvAnalogExamples | J_IPX800.js:160 | "" and "1T,2L" are accepted |
| CsvLists.GoodCsvAnalogLaterH | J_IPX800.js:48 | "1,2H" is accepted: a later entry may carry H |
| CsvLists.GoodCsvAnalogLowerCase | J_IPX800.js:48 | "1,2h" is accepted: tags match in either case |
| CsvLists.GoodCsvAnalogRejectsHeadH | J_IPX800.js:48 | "1H" is refused: H is not a first-entry tag |
| CsvLists.AnalogHeadRefusesH | J_IPX800.js:48 | For any digits, a first entry of those digits tagged H is refused, while appending a comma, those digits, a further digit and H to any accepted list, the empty one included, is accepted |
| OutputRelays.FieldAccepted | J_IPX800.js:38 | The automaton accepts an entry iff it parses into relay units: one or more glued units in the first entry, exactly one in a later entry |
| OutputRelays.GoodCsvOutput | J_IPX800.js:35-40 | `goodcsvoutput` accepts exactly the strings that parse as a first entry of glued units followed by comma-led single units |
| OutputRelays.FieldAcceptedIsSpec | J_IPX800.js:38 | The automaton's verdict and the parse specification agree in both directions |
| OutputRelays.RunSound | J_IPX800.js:38 | After reading any text, the automaton's state describes that text as complete units plus the unit still being read |
| OutputRelays.AcceptSound | J_IPX800.js:38 | An accepting state has read a whole number of well-formed units |
| OutputRelays.RunUnits | J_IPX800.js:38 | Every parse into units drives the automaton to an accepting state |
| OutputRelays.GoodCsvOutputCorrect | J_IPX800.js:35-40 | Checking the comma-separated entries one by one agrees with the list specification |
| OutputRelays.LiveRunAlphabet | J_IPX800.js:38 | A text the automaton has not refused contains only digits, `P`, `W` and `-` |
| OutputRelays.FieldEnds | J_IPX800.js:38 | Every entry begins with a digit and ends with a digit or `P` |
| OutputRelays.OutputListShape | J_IPX800.js:35-40 | An accepted list is non-empty, begins with a digit and ends with a digit or `P` |
| OutputRelays.ListOfEntries | J_IPX800.js:38 | A joined list is accepted iff its first entry parses with gluing and every later one without |
| OutputRelays.SingleEntry | J_IPX800.js:38 | A comma-free string is accepted iff it is a sequence of glued units |
| OutputRelays.OutputSnoc | J_IPX800.js:38 | Appending a comma and one unit keeps a list accepted |
| OutputRelays.PlainListExample | J_IPX800.js:158 | "1,5,6" is accepted |
| OutputRelays.CoverListExample | J_IPX800.js:37 | "1W-2-3-20,2,3W-2-3-40,3W-2-3-40" is accepted |
| OutputRelays.HelpTextExample | J_IPX800.js:158 | "1W-2-3-30-40,5,6" is accepted |
| OutputRelays.TwoGroupCoverAccepted | J_IPX800.js:38 | "1W-2-3" is accepted: a cover needs only its stop and down relays; the timings are optional |
| OutputRelays.GlueExample | J_IPX800.js:38 | "1P2" is accepted: units glue together in the first entry |
| OutputRelays.NoGlueLaterExample | J_IPX800.js:38 | "1,2P3" is refused: a later entry is exactly one unit |
| OutputRelays.CoverThenPulseRejected | J_IPX800.js:38 | "1W-2-3P" is refused |
| OutputRelays.CoverThenPulseAccepted | J_IPX800.js:38 | "1W-2-34P" is accepted, the last digit of the cover being the pulsed relay |
| OutputRelays.EmptyRejected | J_IPX800.js:38 | "" is refused |
| OutputRelays.LowerCaseRejected | J_IPX800.js:38 | "1w-2-3" is refused: the pattern is case-sensitive |
| OutputRelays.UnknownMarkRejected | J_IPX800.js:38 | "1X-2-3" is refused |
| OutputRelays.ShortCoverRejected | J_IPX800.js:38 | "1W-2" is refused: a cover names both a stop and a down relay |
| Urls.VariableSetUrl | J_IPX800.js:54-58 | The variable-set URL starts with the request prefix and ends with `&Value=` and the value |
| Urls.ActionUrl | J_IPX800.js:60-64 | The action URL starts with the request prefix and ends with `&action=` and the action |
| Urls.VariableSetUrlIsQuery | J_IPX800.js:56 | The variable-set URL is the prefix followed by the `&`-joined parameters id, DeviceNum, serviceId, Variable and Value |
| Urls.ActionUrlIsQuery | J_IPX800.js:62 | The action URL is the prefix followed by the `&`-joined parameters id, output_format, DeviceNum, serviceId and action |
| Urls.ParseQueryText | J_IPX800.js:54-64 | A query written from parameters whose keys and values contain no `&`, and whose keys contain no `=`, reads back as exactly those parameters |
| Urls.ParseQueryExactly | J_IPX800.js:54-64 | A query reads back as exactly its parameters if and only if no key or value contains `&` and no key contains `=` |
| Urls.ReadBackIsFree | J_IPX800.js:54-64 | A query that reads back as its own parameters has no `&` inside any parameter, since each one adds a cut |
| Urls.VariableSetRoundTrip | J_IPX800.js:54-58 | Splitting the variable-set query at `&` and `=` gives back the device, service, variable name and value if and only if none of them contains `&` |
| Urls.ActionRoundTrip | J_IPX800.js:60-64 | Splitting the action query at `&` and `=` gives back the device, service and action if and only if neither contains `&` |
| Urls.AmpersandInjects | J_IPX800.js:56 | Nothing is escaped: the value "1&x=2" reads back as Value=1 plus an extra parameter x=2 |
| Settings.ValidateAndSave | J_IPX800.js:94-108 | A value is saved iff there is no validator or the validator accepts it. Saving writes the value under the plugin's service and leaves every other variable as it was; a refusal changes nothing |
| Settings.Set | J_IPX800.js:213-227 | A handler saves iff its validator accepts the prepared value, and then stores that prepared value; otherwise the store is unchanged |
| Settings.SetterFor | J_IPX800.js:155-160 | The panel's variable names pick out their handlers |
| Settings.SetKeepsConsistent | J_IPX800.js:213-227 | If every stored panel variable holds a value its validator accepts, that remains true after any handler runs on its panel variable, for any device |
| Settings.RefusedLeavesStore | J_IPX800.js:100-107 | A refused value leaves the store unchanged |
| Settings.SetIdempotent | J_IPX800.js:94-108 | Running a handler again with the same value changes nothing more |
| Settings.ListSettersStoreTrimmed | J_IPX800.js:216-224 | The list handlers store the trimmed value, which has no white space or line terminator at either end |
| Settings.ListSettersIgnorePadding | J_IPX800.js:216-224 | For a list handler, a value and its trimmed form have the same outcome |
| Settings.RawSettersRefusePadding | J_IPX800.js:213-214 | The address and frequency handlers refuse any value with white space or a line terminator at either end |
| Settings.FrequencyIsNumber | J_IPX800.js:225-226 | The update-frequency handler saves exactly the non-empty digit strings |
| Settings.PaddedRelayListSaved | J_IPX800.js:216-217 | "1,5,6 " typed into the output-relay field is saved as "1,5,6" |
| Settings.PaddedAddressRefused | J_IPX800.js:213-214 | "192.168.1.1 " typed into the address field is refused |

## Left out

- `saveVar` (J_IPX800.js:69-92) calls the host's device-state functions.
  On Vera (lines 71-87) it writes the value twice, as static and as dynamic
  state, and sends the asynchronous variable-set request. Under ALTUI
  (lines 88-91) it writes the value once and sends no request. Either way
  the stored value is the same, so the model has one update of the variable
  map. The host calls and the network request are not modelled.
- The colour change and the alert in `validateAndSave` are display only.
- `validateAndSave`'s `reload` argument is defaulted and passed on to
  `saveVar`, which does not take it. It has no effect and is not modelled.
- `isFunction` (J_IPX800.js:12-14) is runtime type reflection and is not
  used by the modelled code.
- `ipx800_Donate` and `ipx800_Settings` (J_IPX800.js:131-207) build HTML and
  install click handlers. Only the variable names the panel passes to the
  handlers (`Settings.PanelName`) are kept.
- The global request prefix `ip_address` (J_IPX800.js:6) comes from the
  host. It is the `base` parameter of the URL builders.
- Urls.VariableSetUrl: the device number is a natural number rendered in
  decimal. The source concatenates whatever value the caller passes.
- Urls.ActionUrl: the same restriction on the device number.
- Urls.ParseQuery reads the query text as written. It does no
  percent-decoding, does not turn `+` into a space and does not drop a `#`
  fragment, all of which an HTTP server would. The round-trip lemmas
  therefore say nothing about values containing `%`, `+` or `#` as a server
  would receive them.
- The validators' values are modelled as strings. JavaScript's `test`
  converts a non-string argument to a string first, and that conversion is
  not modelled.
- Regular-expression matching is modelled by the language each pattern
  denotes. Backtracking and its cost are not modelled.
- Strings are sequences of Unicode scalar values, while JavaScript strings
  are UTF-16 code units. A character beyond the Basic Multilingual Plane is
  one `char` here and two code units there, which `IpAddress.IsSeparator`
  accounts for. A lone surrogate, which JavaScript's `.` also matches, cannot
  be written as a Dafny `char` and is not modelled.
- White space and line terminators are the characters listed in
  `JsString`. Unicode's space-separator category is written out as the
  code points it held when the model was written.
