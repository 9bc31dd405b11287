# Models of CFEngine's algorithmic cores

CFEngine 3 is a C program that keeps machines configured. Under its plumbing lie a few algorithms that
can be stated on their own, and this project models them in Dafny and proves what they promise. Code
that works by changing things in place (buffers, `argv`, a scanner's static state, handles) is imperative
here too, and proved against functions that know nothing of buffers or calls; the theorems are about
those functions.

| file | models |
|---|---|
| `FormatSpec.dfy`, `FormatTheorems.dfy`, `FormatMeaning.dfy`, `FormatExamples.dfy`, `Snprintf.dfy` | formatted output, `pub/snprintf.c`, without floating point |
| `GetoptSpec.dfy`, `GetoptTheorems.dfy`, `Getopt.dfy`, `GetoptMeaning.dfy`, `GetoptPrefix.dfy`, `GetoptExamples.dfy` | command-line scanning, `pub/getopt.c`, short and long options |
| `RpmVersion.dfy` | RPM version ordering, `ext/rpmvercmp.c` |
| `AclMode.dfy`, `AclSyntax.dfy`, `AclSpec.dfy`, `AclRepair.dfy`, `AclMeaning.dfy`, `AclGrammar.dfy`, `AclExamples.dfy` | checking, parsing and repairing POSIX access-control lists, `src/acl.c`, `src/acl_posix.c` |
| `CsvWriter.dfy` | the CSV writer, `src/csv_writer.c`, against a reader of RFC 4180, section 2 |
| `DbHandle.dfy` | shared database handles, `src/dbm_api.c`, as interleaved steps of threads |
| `ArrayMap.dfy` | the bounded owning map, `src/array_map.c` |
| `AlphaList.dfy` | the list indexed by first character, `src/alphalist.c` |
| `Options.dfy`, `CStrings.dfy`, `Numerals.dfy` | absent values, NUL-terminated buffers, runs of characters and decimal numerals |

`dafny verify dfyconfig.toml` checks all of it.

## How the parts fit

**Formatted output.** `FormatSpec.Render` reads a format directive by directive and renders each as a
whole. `Snprintf.RunMachine` is the seven-state machine; `Output.Valid` says what the truncating
`OUTCHAR` keeps. `Pending` gives the meaning of what is left of the format in each state, one lemma a
state shows how a transition moves it, and the loop decreases (characters left, rank of the state).

**Option scanning.** `GetoptSpec.Scan` walks over the arguments and never moves one. `Scanner.Ahead`
relates the static state between calls to what a scan from there would still report; each call takes one
event off its front. `GetoptTheorems.RoleAt` says, without scanning, which elements are options,
arguments, a terminator or operands, and the permuting scan is the stable partition by those roles.

**Versions.** `RpmVersion.Tokens` and `Compare` define a lexicographic order under tilde, end, word, number.

**ACL repair.** `AclSpec.Repaired` applies a promise's entries to a list and works out a mask. Every mode
string acts on each permission as a constant or as the identity, so the composed effect on an entity is
idempotent, and the mask is a function of the list as a map; hence repair converges.

**What the specifications mean.** Methods are proved against specification functions, and the functions in their
turn against what they are for, in terms of the characters a user types: `FormatMeaning` over spelt directives,
`GetoptMeaning` over spelt arguments, `AclMeaning` and `AclGrammar` over spelt entries, and the lemmas of
`RpmVersion`, `CsvWriter`, `AlphaList`, `ArrayMap` and `DbHandle` that name their characters, tags and states.

## Where the code differs from what is said of it

The model follows the code. Each difference comes with the condition under which the code does what is said
of it, for all inputs, and with an input or a run on which it does not.

- Zero printed with precision 0 comes out as `0`. Section 7.19.6.1 of C99 asks for no characters, but for a
  single `0` in the alternative form of octal: the field is as C99 asks if and only if it is that
  (`FormatTheorems.ZeroIsPrinted`; `FormatExamples.PrecisionZero`, `%.0d`, and `PrecisionZeroOctal`, `%#.0o`).
- With the `'` flag, a field comes out narrower than its width if and only if a precision exceeds the digits
  and the width is large enough (`FormatTheorems.WidthMissed`; `FormatExamples.WidthMissedExample`). The digits
  a precision asks for are then missing too, and only then (`PrecisionMet`; the same example). The `#`
  form of octal raises the precision, so that separators can take the place of its leading zero
  (`OctalZero`; `OctalZeroExample`).
- A character conversion meets its width if and only if that is at most 1 (`CharIgnoresWidth`; `CharExample`).
- A star after the digits of a width or precision takes their place and is not refused, whatever number that
  fits an int the digits are (`StarReplacesDigits`, `StarReplacesPrecision`; `FormatExamples.StarExample`,
  `%5*d`).
- A permuted argument list scans the same again unless its last option lacked a required argument while
  operands were put behind it: then the option takes the first operand (`GetoptTheorems.Rescan`;
  `GetoptExamples.RescanTakesOperand`).
- The `+` or `-` in front of an option string is skipped by the first call only. Later calls take it for a
  letter, and a colon behind it no longer selects the code of an absent argument. A scan goes as if all calls
  skipped it if and only if no option decoded after the first event is affected
  (`GetoptPrefix.PrefixSeenLater`; `GetoptExamples.PrefixIsLetter`, `PrefixHidesColon`).
- The syntax check accepts several operators in front of a mode; the parser reads one and silently stops at the
  second (`AclSyntax.AcceptedIsParsed`; `AclExamples.SecondOperatorStops`).
- A warning about the default list counts as a failure under the inherit policies `parent` and `clear`, but not
  under `specify` (`AclRepair.WarnVerdict`; `AclExamples.WarningFails`, `WarningPasses`).
- A CSV record without fields reads back as a record with one empty field, so the round trip is exact if and only
  if there is none (`CsvWriter.RoundTrip`; `CsvWriter.EmptyRecord`).
- A close leaves `priv` pointing to what it closed. If the path lock then fails on the next open, the caller is
  handed a closed backend, or the backend is closed twice; what callers are promised holds at that return if and
  only if the handle pointed to nothing (`DbHandle.PathLockFailure`; `StaleHandle` and `DoubleClose`).
- A full `ArrayMap` refuses even a new value for a key it holds (`ArrayMap.InsertTakesEffect`; `FullMap`).
- `InAlphaList` answers that the empty string is in every list, and so `IdempPrependAlphaList` never adds it; the
  answer is membership if and only if the string is not empty or is there (`AlphaList.FoundWhen`;
  `AlphaList.EmptyString`).

Two reads past the end of a string are preconditions here, since what they yield is undefined. The syntax check
makes one on a bare `user:` or `group:` (`CheckACESyntax`). The mode parser makes the other on an unclosed
parenthesis (`InBounds`; `AclExamples.UnclosedParenthesis`), which the syntax check refuses
(`AclRepair.AcceptedInBounds`).

## Model

| member | source | states |
|---|---|---|
| Snprintf.Output.constructor | pub/snprintf.c:560-561 | a null destination counts as one of size zero |
| Snprintf.Output.OutChar | pub/snprintf.c:507-512 | keeps that exactly the first size-1 characters of all text so far are in the buffer and every other slot, within the size or beyond, is as it was |
| Snprintf.Output.Pad | pub/snprintf.c:950-953 | the padding loops append that many of one character |
| Snprintf.PrintSep | pub/snprintf.c:1354-1367 | appends the locale's separator, or a comma where the locale has none |
| Snprintf.GetNumSep | pub/snprintf.c:1369-1385 | the total length of the separators between that many digits |
| FormatTheorems.GroupLength | pub/snprintf.c:1053-1058 | what the digit loop emits is longer than the digits by exactly that length, for separators of any length |
| Snprintf.ConvertInteger | pub/snprintf.c:1408-1421 | the low-order digits in reverse order, as many as there are slots, all of them when they fit |
| FormatTheorems.DigitsRead | pub/snprintf.c:1408-1421 | the digits read in the base give back the value |
| FormatSpec.DigitsLength | pub/snprintf.c:455 | a value below base to the k has at most k digits |
| FormatSpec.BufferSuffices | pub/snprintf.c:448-455 | 43 slots hold every value below 2 to the 128 in bases 8, 10 and 16 |
| Snprintf.ShownLength | pub/snprintf.c:940-943 | how much of a string the precision lets through, counted without reading past it |
| Snprintf.FmtStr | pub/snprintf.c:930-962 | appends the string cut to the precision, padded to the width on the side the minus flag asks for |
| FormatTheorems.StrTextLength | pub/snprintf.c:945-961 | a string field is as long as the larger of the width and what is shown |
| Snprintf.Padding | pub/snprintf.c:1016-1038 | blanks and zeros from width, precision, flags, digits and separators, as the field specification has them |
| Snprintf.PutDigits | pub/snprintf.c:1053-1058 | the digits in order with a separator wherever a positive multiple of three is left |
| Snprintf.FmtInt | pub/snprintf.c:964-1063 | appends the text of the field: blanks, sign, prefix, zeros, grouped digits, blanks |
| FormatTheorems.FieldLength | pub/snprintf.c:1013-1038 | an integer field has exactly max(width, sign + prefix + max(effective precision, digits) + separators) characters if and only if there are no separators or the effective precision is at most the digits; otherwise it is shorter |
| FormatTheorems.WidthMissed | pub/snprintf.c:1016-1026 | the field is narrower than its width if and only if there are separators, the effective precision exceeds the digits, and the width exceeds sign + prefix + max(effective precision, digits + separators) |
| FormatTheorems.PrecisionMet | pub/snprintf.c:1013-1024 | at least as many digits as the precision asks for, as C99 7.19.6.1 demands, if and only if there are no separators or the precision is at most the digits |
| FormatTheorems.OctalZero | pub/snprintf.c:993-1016 | the octal alternative form shows the leading zero that C99 asks for if and only if there are no separators, or the precision exceeds digits and separators together, or zero padding fills in |
| FormatExamples.WidthMissedExample | pub/snprintf.c:1016-1026 | %'10.5d of 1234 prints nine characters |
| FormatExamples.OctalZeroExample | pub/snprintf.c:1002-1016 | %'#o of 1234 prints no leading zero |
| FormatTheorems.FieldReads | pub/snprintf.c:1039-1062 | dropping padding, prefix and separators from a field and reading its digits gives the magnitude |
| FormatTheorems.FieldReadsBack | pub/snprintf.c:978-1062 | with the sign character it gives the value |
| FormatTheorems.IntegerRoundTrip | pub/snprintf.c:697-773 | whatever flags, width, precision and length modifier, the text of d, i and u reads back in base 10, of o in base 8 and of x and X in base 16 as the argument reduced to the type named |
| FormatMeaning.IntegerPrints | pub/snprintf.c:563-928 | every spelt integer directive of modest precision is defined, complete, and prints its field |
| FormatMeaning.IntegerReads | pub/snprintf.c:697-773 | a spelt integer directive prints, in the base of its conversion character, the value of the type of its modifier (hh 8, h 16, none 32, l, ll, j, z, t 64 bits) that differs from the argument by a multiple of the number of values |
| FormatMeaning.IntegerParts | pub/snprintf.c:978-1062 | without the quote flag the output is blanks, sign, prefix, zeros, digits and blanks, and how many of each, from the flags, width and precision as spelt; this determines the text |
| FormatMeaning.DigitsAre | pub/snprintf.c:1408-1421 | digits are those of the base, in lower case for x and in upper case for X, with no zero in front but for zero |
| FormatMeaning.GroupByThrees | pub/snprintf.c:1053-1058 | a separator stands in front of each three digits from the end, and none in front of the first |
| FormatMeaning.StringPrints | pub/snprintf.c:930-962 | a spelt s directive prints the string, or (null), cut to the precision and padded with blanks on the side of its flags |
| FormatMeaning.CharPrints | pub/snprintf.c:826-829 | c prints the argument as an unsigned char whatever else is spelt |
| FormatMeaning.NullPrints | pub/snprintf.c:842-848 | p prints a null pointer as (nil), padded, without a precision |
| FormatMeaning.PointerPrints | pub/snprintf.c:849-860 | p prints any other pointer as its address under #lx |
| FormatMeaning.CountStored | pub/snprintf.c:862-904 | n stores the count so far, reduced to the type of its modifier, and prints nothing |
| FormatMeaning.FloatPrints | pub/snprintf.c:774-825 | what the renderer of floating-point values is given, and what becomes of its text or overflow |
| FormatMeaning.OthersPrintNothing | pub/snprintf.c:905-910 | a percent sign prints itself and other characters nothing, without an argument |
| FormatTheorems.ZeroIsPrinted | pub/snprintf.c:984-1062 | zero with precision zero prints the field that C99 7.19.6.1 paragraphs 6 and 8 ask for if and only if it is octal with the alternative form |
| FormatTheorems.ZeroDirective | pub/snprintf.c:697-773 | the same of every integer directive |
| FormatExamples.PrecisionZero | pub/snprintf.c:1414-1418 | %.0d of 0 prints a digit where C99 asks for none |
| FormatExamples.PrecisionZeroOctal | pub/snprintf.c:986-992 | %#.0o of 0 prints the digit that C99 asks for |
| FormatTheorems.CharIgnoresWidth | pub/snprintf.c:826-829 | a character conversion is one character long, and meets its width if and only if that is at most 1 |
| FormatExamples.CharExample | pub/snprintf.c:826-829 | %5c prints one character |
| Snprintf.FetchIsConversion | pub/snprintf.c:700-770 | fetching an argument in the promoted type and narrowing it is the reduction to the named type, signed or unsigned, through the signed variable it is kept in |
| Snprintf.Conversion | pub/snprintf.c:695-910 | one conversion specifier appends, stores and consumes what its rendering says, or overflows |
| Snprintf.OverflowGuard | pub/snprintf.c:606-610 | the guard in bounded arithmetic fires exactly when the next decimal value exceeds INT_MAX |
| FormatTheorems.WidthIsDecimal | pub/snprintf.c:603-612 | a width without a star is the decimal value of its digits, and overflow is flagged exactly when that exceeds INT_MAX |
| FormatTheorems.PrecisionIsDecimal | pub/snprintf.c:634-645 | the same for a precision |
| FormatTheorems.StarReplacesDigits | pub/snprintf.c:604-623 | a star after the digits of a width takes their place; they only have to fit an int |
| FormatTheorems.StarReplacesPrecision | pub/snprintf.c:637-654 | the same for a precision |
| FormatMeaning.StarWidth | pub/snprintf.c:612-623 | a star for a width reads as the number given as its argument, and a negative one as a minus flag and its absolute value |
| FormatMeaning.StarPrecision | pub/snprintf.c:645-654 | a star for a precision reads as the number given, and as no precision when that is negative |
| FormatMeaning.NumeralReads | pub/snprintf.c:604-611 | the numbers in a format are decimal |
| FormatExamples.StarExample | pub/snprintf.c:603-623 | %5*d with arguments 3 and 7 prints a field of width 3 |
| FormatMeaning.SpellingReads | pub/snprintf.c:572-695 | a directive spelt as flags, width, precision, length modifier and conversion is read as exactly those, whatever follows |
| FormatExamples.IntegerDirective | pub/snprintf.c:563-928 | a format that is one integer directive prints its field |
| Snprintf.StepDefault | pub/snprintf.c:565-571 | the transition out of plain text keeps the meaning of the rest of the format |
| Snprintf.StepFlags | pub/snprintf.c:572-602 | the flags transition keeps it |
| Snprintf.StepWidth | pub/snprintf.c:603-626 | the width transition keeps it, for digits, a star of either sign, and anything else |
| Snprintf.StepDot | pub/snprintf.c:627-633 | the dot transition keeps it |
| Snprintf.StepPrecision | pub/snprintf.c:634-657 | the precision transition keeps it |
| Snprintf.StepModifier | pub/snprintf.c:658-694 | the length-modifier transition keeps it |
| Snprintf.StepConversion | pub/snprintf.c:695-915 | the conversion transition renders the directive and starts afresh |
| Snprintf.Transition | pub/snprintf.c:572-694 | one transition inside a directive keeps the meaning, reports overflow exactly when the meaning is overflow, and lowers (characters left, rank) |
| Snprintf.RunMachine | pub/snprintf.c:563-916 | the machine ends, having passed to OUTCHAR exactly the text the format means, with the stores and the overflow status it means |
| Snprintf.Terminate | pub/snprintf.c:918-921 | leaves the first min(length, size-1) characters, a NUL, and what was there before |
| Snprintf.TruncateMeans | pub/snprintf.c:918-921 | character by character, what is in the buffer: the text, one NUL within the size, and what was there |
| Snprintf.ReturnMeans | pub/snprintf.c:923-927 | the length, or -1 on overflow and from 2147483647 on |
| Snprintf.Vsnprintf | pub/snprintf.c:527-928 | the return value and stores are those of the whole text whatever the size; the buffer receives its truncation and nothing at or beyond size changes |
| Snprintf.Vasprintf | pub/snprintf.c:1487-1500 | on success the buffer is exactly the whole text and a NUL: the second pass is never truncated; the stores of both passes, if a second one is made |
| FormatTheorems.RenderConcat | pub/snprintf.c:563-916 | a format that ends between directives, followed by another, prints the one text and then the other, stored counts included |
| FormatMeaning.DirectiveIsClosed | pub/snprintf.c:563-916 | every defined spelt directive ends between directives, so that any sequence of them composes |
| FormatTheorems.EscapeRoundTrip | pub/snprintf.c:565-571 | any text with its percent signs doubled prints as itself |
| Getopt.SwapSlots | pub/getopt.c:205-210 | the swapping loop exchanges two disjoint blocks of equal length |
| Getopt.BottomShort | pub/getopt.c:198-213 | after the first kind of swap, exchanging what is left gives the exchange of the whole |
| Getopt.TopShort | pub/getopt.c:214-229 | so does the second kind |
| Getopt.Scanner.Exchange | pub/getopt.c:182-236 | the two adjacent blocks change places, each in its order, all else untouched; the bounds move to where the first block now lies |
| Getopt.BlocksExchange | pub/getopt.c:173-180 | where each block lies after an exchange, and that argv is a permutation |
| Getopt.Scanner.CloseGap | pub/getopt.c:350-356 | options scanned are in front, operands skipped behind them, the rest untouched |
| Getopt.Scanner.SkipOperands | pub/getopt.c:348-365 | the permuting advance changes nothing about what the scan will report and collect |
| Getopt.Scanner.TakeTerminator | pub/getopt.c:372-383 | the terminator joins the options and everything behind it the operands |
| Getopt.Scanner.FindLong | pub/getopt.c:442-467 | an exact name, or the only entry the name abbreviates, or ambiguous, or unknown |
| GetoptSpec.ResolveUnique | pub/getopt.c:445-479 | those four cases leave no choice |
| Getopt.Scanner.LongOption | pub/getopt.c:430-554 | code, argument, index, stored flag and position after a long option, in every error case too |
| Getopt.Scanner.ShortOption | pub/getopt.c:556-625 | code, argument, optopt and position after an option letter, in every error case too |
| GetoptMeaning.ListedLetter | pub/getopt.c:560-593 | a letter listed with no colon behind it takes no argument, with one requires one, with two allows one |
| GetoptMeaning.AttachedValue | pub/getopt.c:579-602 | -cv reports c with argument v when c requires or allows one |
| GetoptMeaning.SeparateValue | pub/getopt.c:617-620 | -c v reports c with argument v, whatever v looks like, when c requires one |
| GetoptMeaning.AbsentValue | pub/getopt.c:584-591 | -c reports c without an argument and leaves the next element when c requires none |
| GetoptMeaning.MissingValue | pub/getopt.c:603-616 | -c at the end of the list, when c requires an argument, reports a question mark or a colon and names c |
| GetoptMeaning.UnlistedReported | pub/getopt.c:566-578 | a letter not listed reports a question mark and is named |
| GetoptMeaning.ClusterScanned | pub/getopt.c:559-564 | a letter without an argument is reported and the scan goes on behind it in the same element |
| GetoptMeaning.LongAttached | pub/getopt.c:479-530 | --name=v reports the entry the name stands for with argument v, or a question mark when it takes none |
| GetoptMeaning.LongSeparate | pub/getopt.c:508-530 | --name v reports the entry with argument v when it requires one |
| GetoptMeaning.LongAlone | pub/getopt.c:521-530 | --name reports the entry without an argument and leaves the next element when it requires none |
| GetoptMeaning.LongMissing | pub/getopt.c:513-519 | --name at the end of the list, when an argument is required, reports a question mark or a colon |
| GetoptMeaning.LongUnknown | pub/getopt.c:469-554 | a name that stands for no entry reports a question mark |
| GetoptSpec.DecodeProgress | pub/getopt.c:559-624 | a decoding step consumes a letter or an element and never more than the argument after it; an argument is absent only at the end of the list |
| Getopt.Scanner.Initialize | pub/getopt.c:240-272 | the ordering from prefix and POSIXLY_CORRECT, and the option string without the prefix |
| GetoptMeaning.OrderingMeans | pub/getopt.c:256-271 | a minus sign in front selects reporting in order, a plus sign or POSIXLY_CORRECT stopping at the first operand, anything else permuting |
| Getopt.Scanner.SkipToElement | pub/getopt.c:344-395 | stops in front of an element with the scan ahead unchanged, or at the end with argv split at optind |
| Getopt.Scanner.NextElement | pub/getopt.c:344-413 | ends, passes by one non-option as code 1, or enters an option element |
| GetoptMeaning.OperandMeans | pub/getopt.c:348-406 | an operand in front is set aside, ends the scan, or is reported as code 1, by the ordering |
| GetoptMeaning.TerminatorMeans | pub/getopt.c:372-395 | the terminator ends every scan and joins the options; so does the end of the list |
| Getopt.Scanner.Next | pub/getopt.c:330-626 | one call reports the next event of the scan and leaves its argument and optopt in the static variables; at the end argv holds the scanned elements and then the operands, with optind between them; argv is always a permutation |
| Getopt.ScanAll | pub/getopt.c:65-77 | a caller's loop ends, with exactly the events, the elements and the boundary of the scan of the original list, in all three orderings |
| GetoptTheorems.RolesOfFit | pub/getopt.c:346-412 | every list of arguments has roles that follow from each element and what stands before it |
| GetoptTheorems.StablePartition | pub/getopt.c:346-413 | a permuting scan leaves options, their arguments and the terminator in original order, then operands in original order |
| GetoptTheorems.SelectPermutes | pub/getopt.c:69-71 | nothing is lost or doubled by the partition |
| GetoptTheorems.OrderKept | pub/getopt.c:130-151 | without permutation the list stays as it is |
| Getopt.WholeScan | pub/getopt.c:344-413 | the list a whole run leaves: the stable partition when permuting, the original list otherwise |
| GetoptTheorems.RescanAgrees | pub/getopt.c:346-406 | scanning what a permuting scan put in front, permuting or not, reports the same events |
| GetoptTheorems.RescanDiffers | pub/getopt.c:603-620 | an option that lacked its argument takes the operand behind it, and the codes and arguments differ |
| GetoptTheorems.Rescan | pub/getopt.c:344-625 | a second scan of the permuted list reports the same codes and arguments if and only if it is not the case that an argument was absent and operands exist; either way it leaves the list unchanged |
| GetoptExamples.RescanTakesOperand | pub/getopt.c:603-620 | with option string a: the arguments x -a report an absent argument, and -a x the argument x |
| GetoptPrefix.OtherLetters | pub/getopt.c:560-593 | a prefix left in the option string changes the arity of no letter but its own, which is then given by the colons behind it |
| GetoptPrefix.StepCompares | pub/getopt.c:415-625 | exactly when a prefix left in the option string changes the code or argument of one option |
| GetoptPrefix.PrefixSeenLater | pub/getopt.c:341-342 | a scan reports and collects what it would if every call skipped the prefix if and only if there is none or no option after the first event is changed; otherwise codes or arguments differ |
| GetoptExamples.PrefixHidesColon | pub/getopt.c:612-615 | option string +:a:b, arguments -b -a: the absent argument is reported as a question mark, not a colon |
| GetoptExamples.PrefixIsLetter | pub/getopt.c:560-578 | option string +ab, arguments -a -+: the plus sign is taken for an option |
| RpmVersion.CompareIsTotalOrder | ext/rpmvercmp.c:54-160 | the order on token sequences: zero exactly on equals, antisymmetric in sign, transitive, total |
| RpmVersion.TokenOrder | ext/rpmvercmp.c:77-144 | behind equal tokens: tilde before the end, the end before a word, a word before a number, words by spelling, numbers by value |
| RpmVersion.PrefixFirst | ext/rpmvercmp.c:143-144 | a proper prefix sorts first |
| RpmVersion.FirstDifference | ext/rpmvercmp.c:143-144 | otherwise the first character that differs decides, by its code |
| RpmVersion.TokensOfRuns | ext/rpmvercmp.c:92-103 | a maximal run of letters is a word and a maximal run of digits a number |
| RpmVersion.TokensOfOthers | ext/rpmvercmp.c:74-84 | a tilde stands for itself and every other character for nothing |
| RpmVersion.SeparatorSplits | ext/rpmvercmp.c:74-75 | a separator splits the tokens and leaves no trace |
| RpmVersion.SeparatorsIrrelevant | ext/rpmvercmp.c:74-75 | which separators and how many makes no difference to any comparison |
| RpmVersion.StrippedIsNumericOrder | ext/rpmvercmp.c:122-144 | length then strcmp on numerals without leading zeros is the order of the naturals |
| RpmVersion.SkipZeros | ext/rpmvercmp.c:128-130 | dropping leading zeros keeps the value |
| RpmVersion.CompareSegments | ext/rpmvercmp.c:122-144 | the order of two cut segments by value or by spelling |
| RpmVersion.SegmentsDecide | ext/rpmvercmp.c:112-144 | two versions at segment starts are ordered by the segments, unlike kinds included, then by what follows |
| RpmVersion.CompareNext | ext/rpmvercmp.c:89-150 | a nonzero result is final; after a zero one both buffers are restored and what is left decides |
| RpmVersion.TildeDecides | ext/rpmvercmp.c:77-84 | a tilde sorts before everything, the end included |
| RpmVersion.EndDecides | ext/rpmvercmp.c:153-159 | the version that goes on is the newer |
| RpmVersion.RpmVerCmp | ext/rpmvercmp.c:54-160 | equals the comparison of the token sequences; both buffers are whole at every loop head |
| RpmVersion.ParseEVR | ext/rpmvercmp.c:169-192 | the offsets and NULs it leaves name exactly the parts of the original string |
| RpmVersion.JoinSplit | ext/rpmvercmp.c:169-192 | joining the parts gives back the string, an empty epoch spelt 0 |
| RpmVersion.SplitJoin | ext/rpmvercmp.c:169-192 | writing parts and parsing them gives them back if and only if the notation can express them |
| RpmVersion.CompareKeysIsTotalOrder | ext/rpmvercmp.c:194-212 | the order by epoch, version, release is total, a missing epoch being 0 and a missing release empty |
| RpmVersion.RpmVersionCompare | ext/rpmvercmp.c:194-212 | equals that order; epochs that differ decide, a missing one being 0, then versions that differ whatever the releases, then the releases, a missing one being empty |
| RpmVersion.CompareVersions | ext/rpmvercmp.c:236-241 | parsing both strings in place and comparing decides by epoch, then version, then release of the original strings |
| RpmVersion.KeysDecide | ext/rpmvercmp.c:196-211 | the order on keys is that rule |
| RpmVersion.PartsOfSpelling | ext/rpmvercmp.c:169-192 | the parts of epoch:version-release, with and without an epoch and a release |
| RpmVersion.VersionBeforeRelease | ext/rpmvercmp.c:206-211 | 1.0-2 is older than 1.1-1 |
| RpmVersion.VersionsTotalPreorder | ext/rpmvercmp.c:236-241 | that is a total preorder on version strings |
| RpmVersion.Command | ext/rpmvercmp.c:222-251 | exit status 0 exactly when the order asked for holds, 255 on an unknown request |
| AclMode.ReadOp | src/acl_posix.c:964-989 | which operator adds, deletes, or clears first |
| AclMode.ApplyLetters | src/acl_posix.c:993-1033 | applies a maximal run of permission letters |
| AclMode.ParsePart | src/acl_posix.c:962-1081 | one comma-separated part, native letters included |
| AclMode.ParseMode | src/acl_posix.c:938-1095 | the permissions after a mode string and where reading stops |
| AclMode.ModeActs | src/acl_posix.c:938-1095 | every mode string acts on each permission as a constant or the identity, and how far it is read does not depend on the permissions |
| AclMeaning.PlusGives | src/acl_posix.c:966-969 | a plus sign gives exactly the permissions named and keeps the others |
| AclMeaning.MinusTakes | src/acl_posix.c:971-974 | a minus sign takes exactly the permissions named and keeps the others |
| AclMeaning.EqualsLeaves | src/acl_posix.c:976-989 | an equals sign, or no sign, leaves exactly the permissions named |
| AclMeaning.CommaMeans | src/acl_posix.c:1083-1091 | parts separated by commas apply from the left |
| AclMeaning.NativeMeans | src/acl_posix.c:1037-1081 | letters in parentheses count as letters of the part |
| AclSyntax.ScanPast | src/files_names.c:756-766 | stops at the first character outside the set |
| AclSyntax.CheckPart | src/acl.c:380-403 | one part of a mode string is well-formed, and where it ends |
| AclSyntax.CheckModeSyntax | src/acl.c:360-426 | accepts exactly the well-formed mode strings and stops at their end |
| AclSyntax.SkipEntity | src/acl.c:262-329 | the part in front of the mode string, ids and mask support included |
| AclSyntax.CheckACESyntax | src/acl.c:255-358 | accepts exactly the well-formed entries |
| AclGrammar.AllRead | src/acl.c:380-421 | every sequence of parts (operators, letters, native letters in parentheses) separated by commas is accepted, to its end |
| AclGrammar.AllSpelt | src/acl.c:380-421 | what is accepted is such a sequence |
| AclGrammar.TagsMean | src/acl.c:267-329 | user and group entries need an id that is not empty; the mode starts behind its colon |
| AclGrammar.OtherTagsMean | src/acl.c:277-297 | all entries need none; mask entries need the support of the type |
| AclGrammar.EntryAccepted | src/acl.c:331-457 | behind a well-formed mode there may be nothing, allow, or deny where supported |
| AclSyntax.ParseEntity | src/acl_posix.c:784-929 | the entity of an entry and where its text ends; fails exactly on unknown tags and names |
| AclMeaning.EntitiesMean | src/acl_posix.c:802-891 | a star names the owner or the owning group, any other name the user or group it resolves to |
| AclMeaning.OtherEntities | src/acl_posix.c:892-902 | all is everybody else, mask the mask |
| AclMeaning.EntryMeans | src/acl_posix.c:204-275 | the mode string of an entry is what is behind the colon |
| AclSyntax.PartsAgreeAll | src/acl.c:380-421 | an accepted mode string is parsed without running past its end, and to where the check stopped if and only if no operator directly follows another |
| AclSyntax.AcceptedIsParsed | src/acl.c:255-426 | the same for whole accepted entries whose names resolve; the entity ends at the colon in front of the mode |
| AclExamples.SecondOperatorStops | src/acl_posix.c:964-1091 | the entry all:+-r is accepted and its mode changes nothing |
| AclExamples.UnclosedParenthesis | src/acl_posix.c:1037-1081 | a mode string that would be read past its end, and that the check refuses |
| AclRepair.AcceptedInBounds | src/acl.c:255-358 | accepted entries meet the precondition of the repair methods |
| AclRepair.PermsetEquals | src/acl_posix.c:746-776 | equal permissions |
| AclRepair.FindACE | src/acl_posix.c:543-631 | the first entry about the entity |
| AclRepair.ACLEquals | src/acl_posix.c:639-744 | equal if and only if both lists are the same map from entities to permissions, in whatever order |
| AclRepair.ApplyAce | src/acl_posix.c:204-293 | finds or creates the entry and applies the mode to its permissions, or fails |
| AclRepair.ApplyAces | src/acl_posix.c:202-297 | the list after all entries, and whether a mask was among them; fails exactly when an entry does not parse |
| AclSpec.StoreLookup | src/acl_posix.c:215-262 | find-before-create sets one entity and leaves the others |
| AclSpec.RunUnique | src/acl_posix.c:202-297 | entities stay unique |
| AclSpec.RunLookup | src/acl_posix.c:202-297 | each entity ends with the composed effect of its entries, repeated ones included; the rest is left alone |
| AclSpec.GroupClassBounds | src/acl_posix.c:299-310 | the mask worked out covers every entry of the group class |
| AclSpec.GroupClassLeast | src/acl_posix.c:299-310 | and is the least that does |
| AclSpec.SameGroupClass | src/acl_posix.c:299-310 | lists that are the same map have the same mask |
| AclMeaning.MaskCovers | src/acl_posix.c:299-310 | a permission is in the mask worked out if and only if a named user, the owning group or a named group has it |
| AclMeaning.MethodsMean | src/acl_posix.c:179-200 | appending keeps every entity no entry names, overwriting none |
| AclSpec.RepairedLookup | src/acl_posix.c:179-310 | what a repaired list holds: the mask worked out from the list if no entry names one, and the outcome of the entries else |
| AclSpec.RunAgain | src/acl_posix.c:202-297 | applying the entries once more changes no entity |
| AclSpec.RepairConverges | src/acl_posix.c:130-364 | a list that is, in any order, what a repair produced is what repairing it again asks for, for append and overwrite, with and without a mask entry |
| AclRepair.File.Set | src/acl_posix.c:335-344 | an accepted list is what is read back; a refused one changes nothing |
| AclRepair.CheckPosixLinuxACEs | src/acl_posix.c:130-364 | result, report and list in every case of parse failure, equality, warning, dry run, acceptance and refusal; after a successful fix the list is settled |
| AclRepair.CheckDefaultEqualsAccessACL | src/acl_posix.c:372-450 | the same for copying the access list to the default list; a warning is a failure |
| AclRepair.CheckDefaultClearACL | src/acl_posix.c:456-534 | the same for clearing the default list; a warning is a failure |
| AclRepair.CheckPosixLinuxInheritACEs | src/acl_posix.c:88-122 | the outcome of each inherit policy; a policy already met is left alone, a successful fix meets it |
| AclMeaning.FixesMean | src/acl_posix.c:88-122 | only an accepted fix that is no dry run changes the default list, to the access list, to nothing, or to what the entries ask for; any change is reported |
| AclRepair.CheckPosixLinuxACL | src/acl_posix.c:61-81 | both lists' outcomes in order; a successful fix keeps the promise, and a kept promise is found kept and the file left alone |
| AclRepair.WarnVerdict | src/acl_posix.c:88-122 | exactly when a check of the default list that may only warn succeeds, for each policy |
| AclExamples.WarningFails | src/acl_posix.c:496-501 | asked to clear a default list of one entry, a check that may only warn fails |
| AclExamples.WarningPasses | src/acl_posix.c:321-329 | asked to replace the same list by specified entries, it succeeds |
| AclRepair.RunTwice | src/acl_posix.c:61-81 | after a successful fix a second run, whatever it is asked to do, succeeds, reports nothing to do and leaves both lists as the first run left them |
| AclRepair.AcceptedPromise | src/acl.c:160-182 | a promise whose entries are all accepted meets the precondition of the repair |
| AclRepair.RunAcceptedTwice | src/acl_posix.c:61-81 | the same convergence for every promise whose entries the syntax check accepts |
| CsvWriter.Writer.WriteEscaped | src/csv_writer.c:120-133 | the string in quotes with its quotes doubled |
| CsvWriter.Writer.Field | src/csv_writer.c:51-70 | one more field on the current record |
| CsvWriter.Writer.NewRecord | src/csv_writer.c:85-89 | ends the current record, even an empty one |
| CsvWriter.Writer.Close | src/csv_writer.c:93-100 | ends the last record unless it has been ended |
| CsvWriter.FieldIsPrinted | src/csv_writer.c:62-69 | a field stands in quotes if and only if it holds a quote, a comma, a carriage return or a line feed |
| CsvWriter.QuotesAreDoubled | src/csv_writer.c:120-133 | quotes are doubled and everything else stays |
| CsvWriter.RecordsArePrinted | src/csv_writer.c:51-100 | commas between fields, a carriage return and a line feed behind each record |
| CsvWriter.ReadPrintedField | src/csv_writer.c:51-70 | every field, special characters or not, reads back as itself in front of whatever may follow a field |
| CsvWriter.ReadPrintedRecord | src/csv_writer.c:51-70 | so does every record |
| CsvWriter.ReadPrinted | src/csv_writer.c:51-133 | the whole output reads back as the records, one without fields as one empty field |
| CsvWriter.RoundTrip | src/csv_writer.c:51-133 | the output reads back as exactly the records if and only if none is without fields |
| CsvWriter.EmptyRecord | src/csv_writer.c:85-89 | one record without fields prints a line break, which reads back as one empty field |
| DbHandle.StepKeeps | src/dbm_api.c:111-183 | every step of every thread keeps the invariant on locks, refcount, handle and backend calls |
| DbHandle.RunKeeps | src/dbm_api.c:111-183 | so it holds throughout every interleaving in which the path lock does not fail on a handle used before |
| DbHandle.RunCounts | src/dbm_api.c:128-183 | in every run, failing path locks included, refcount is the number of returns of OpenDB with a handle less the number of returns of CloseDB that gave one up, but for the return the lock's holder is about to make |
| DbHandle.RunSafe | src/dbm_api.c:128-183 | outside critical sections refcount is exactly that difference and the backend is open exactly when it is positive; backend opens and closes alternate, each close of what was opened; one thread at a time is inside |
| DbHandle.OpenReturns | src/dbm_api.c:132-166 | an open that finds references returns the handle with one more; one that finds none returns it with the first if and only if the backend opens and the migration does not fail, whatever other threads do |
| DbHandle.CloseReturns | src/dbm_api.c:171-182 | a close that finds references gives up exactly one, and closes the backend with the last; one that finds none changes nothing |
| DbHandle.NeverStuck | src/dbm_api.c:111-183 | a thread in a call can go on unless it waits for a lock that is held, whatever the environment answers |
| DbHandle.CallsProgress | src/dbm_api.c:111-183 | each step of a call brings it nearer to its return, in the same function and past the test under the lock |
| DbHandle.PathLockFailure | src/dbm_api.c:134-164 | when the path lock fails for a thread, then at its return, however other threads and the migration went, alternation and openness hold as promised if and only if the handle pointed to nothing |
| DbHandle.StaleHandle | src/dbm_api.c:136-183 | a concrete run after which a caller holds a handle whose backend is closed |
| DbHandle.DoubleClose | src/dbm_api.c:136-183 | a concrete run in which the backend is closed twice |
| ArrayMap.Map.Insert | src/array_map.c:44-64 | a full map refuses and changes nothing; otherwise the new entries and exactly what is destroyed |
| ArrayMap.Map.Remove | src/array_map.c:66-83 | the entries without the one found, in order, and exactly what is destroyed |
| ArrayMap.Map.Get | src/array_map.c:85-95 | the slot of the entry whose key answers, with the value of the key's class, or none |
| ArrayMap.Map.Clear | src/array_map.c:97-105 | every live entry is destroyed, first to last |
| ArrayMap.Map.Destroy | src/array_map.c:107-112 | everything ever taken over has been destroyed as often as it was taken over |
| ArrayMap.Map.Iterate | src/array_map.c:116-131 | a walk visits each entry once, in order |
| ArrayMap.InsertedRefines | src/array_map.c:51-63 | insertion sets one class of keys and leaves the others; keys stay distinct |
| ArrayMap.RemovedRefines | src/array_map.c:68-82 | removal clears one class and leaves the others; keys stay distinct |
| ArrayMap.InsertedInPlace | src/array_map.c:51-63 | a new class of keys goes behind the others; for one that is there the key stays and the value changes |
| ArrayMap.RemovedInOrder | src/array_map.c:68-82 | removal leaves the entries of the other classes, in order |
| ArrayMap.InsertDestroys | src/array_map.c:51-60 | replacing a value destroys the key handed in and the value replaced; a new class destroys nothing |
| ArrayMap.RemoveDestroys | src/array_map.c:68-81 | a removal destroys the entry's own key and value |
| ArrayMap.RunRefines | src/array_map.c:44-105 | after every run of insertions, removals and clearings the map answers each key with its last accepted insertion unless removed or cleared since, within its bound, and nothing taken over is lost |
| ArrayMap.DestroyedOnce | src/array_map.c:44-105 | in every run an object handed over once is destroyed at most once and never while live |
| ArrayMap.InsertTakesEffect | src/array_map.c:46-49 | after every run, an insertion leaves its value under its key if and only if there is room or the value was there |
| ArrayMap.FullMap | src/array_map.c:44-64 | fourteen insertions fill the map, and a new value for the first key is then refused |
| AlphaList.AlphaList.IsItemIn | src/item_lib.c:188-206 | the empty string, or a member of the list |
| AlphaList.FoundWhen | src/alphalist.c:100-105 | the answer of InAlphaList is that of the flat list if and only if the string is not empty or is there |
| AlphaList.AlphaList.Contains | src/alphalist.c:100-105 | looking in one bucket decides membership in the whole list for every string but the empty one, which is always found |
| AlphaList.EmptyString | src/alphalist.c:154-160 | on a new list the empty string is found and is not added |
| AlphaList.AlphaList.Prepend | src/alphalist.c:145-150 | one more item, at the head of its bucket; every item stays in its bucket |
| AlphaList.AlphaList.IdempPrepend | src/alphalist.c:154-160 | adds a string exactly when it is not empty and not there |
| AlphaList.AlphaList.Match | src/alphalist.c:109-141 | whether a candidate matches: one bucket for a literal start, all of them for a vague one |
| AlphaList.LooksIn | src/alphalist.c:112-137 | a letter, a digit or an underscore in front selects the bucket of all items that start so; anything else all items |
| AlphaList.IndexSufficesWhen | src/alphalist.c:109-141 | the answer is that of a full scan, on every list, if and only if the pattern starts vaguely or all its matches start with its first character |
| AlphaList.Iterator.Next | src/alphalist.c:178-197 | yields what remains item by item, and nothing when nothing remains |
| AlphaList.Walk | src/alphalist.c:171-197 | a walk to the first NULL meets every item once |

## Left out

- Floating-point conversions (`fmtflt`, `getexponent`, `cast`, `myround`, `mypow10`): rounding of long doubles. A parameter of the locale stands for their text or overflow.
- Snprintf.Vsnprintf: arguments of the wrong type or missing, a star width of INT_MIN, the value INTMAX_MIN, and fields whose padding arithmetic leaves the range of int are undefined in C; the specification calls them undefined and the method requires that they do not occur. The length is not wrapped at the width of size_t, and `errno` is not modelled.
- Snprintf.Vasprintf: whether `malloc` succeeds is a parameter.
- Snprintf.FetchIsConversion: int is 32 bits and long, long long, size_t, ptrdiff_t and intmax_t are 64 bits.
- Getopt.Scanner.Next: `long_only` mode, the printing of errors, and calls after the end of a scan. POSIXLY_CORRECT is a parameter. A character that C would return as -1 is not told from EOF.
- RpmVersion.RpmVersionCompare: an epoch that does not fit an int, where atoi is undefined; the usage message of the command.
- AclSyntax.AcceptedIsParsed: the permission letters of NTFS, which the POSIX parser does not know; the syntax check itself takes any set of letters.
- AclRepair.CheckPosixLinuxACEs: errors from libacl, allocation, logging; whether the kernel accepts a list and what the name services answer are parameters.
- `CheckACLSyntax` over a whole promise: its second loop overwrites the verdict of the first, so it promises nothing about the first list. `CopyACLs` and the defaults of unset fields: plumbing.
- DbHandle.RunKeeps: a path lock that fails on a handle used before (see DbHandle.PathLockFailure for what then happens); `CloseAllDB`, migration (a step that succeeds or fails), cursors, and errors of the mutexes.
- `DeleteFromAlphaList` and the copying of alpha lists change item lists in ways that are not part of this model; items are values here, so sharing between lists is not captured. FullTextMatch is a parameter, and first characters are those that are not negative as a C char.
- ArrayMap.Map.Destroy: keys and values are identities; the memory of the map itself is not modelled.
- Socket, crypto and SQL code, the daemons, and the small libc replacements: external libraries, plumbing, or easy members.
