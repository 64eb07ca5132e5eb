# SPMod in Dafny

This project models the parts of SPMod that compute something over unbounded inputs or
keep a protocol over whole runs, and proves what they promise. `dafny verify dfyconfig.toml`
checks all of it.

| part | modules |
|---|---|
| the printf engine of the SourcePawn adapter | `Basics`, `Text`, `Numerals`, `NumberLayout`, `IntPrinter`, `ReadBack`, `Scaling`, `FloatPrinter`, `FloatReadBack`, `FormatSyntax`, `FormatRendering`, `FormatTruncation`, `FormatString`, `FormatMeaning`, `FormatConversions`, `FormatFields` |
| cutting UTF-8 text, sending menu text in pieces | `Utf8Trim`, `Utf8Codes`, `MenuText` |
| menus: pages, navigation, keys, lifetime | `MenuPaging`, `MenuFilling`, `MenuNavigation`, `MenuWalk`, `MenuDrawing`, `MenuLifetime`, `Menus` |
| message interception | `MessageFilter`, `Messages` |
| timers | `Scheduling`, `TimerRuns`, `TimerLateness`, `Timers` |
| handles | `Handles`, `TypeHandlers` |
| forwards | `ForwardDispatch`, `ForwardParams`, `Forwards` |

Code that changes buffers, objects or loop variables is written as methods and classes; each is
proved equal to a function of its inputs or of the old state, and the theorems are about that
function. Where the code falls short of what its interface or a reader would expect, the theorem
says exactly when it does not, as an equivalence with a condition a caller can check, and a
lemma gives an input that fails.

What comes from outside is a parameter: the answers of item callbacks during a display
(`Statuses`), what a hook does to a message (`Reply`), what a timer's callback does (`Answer`),
what a plugin returns (`Answer` of `ForwardDispatch`), the game time. Engine calls append to a
sequence.

## How the numbers are modelled

- `unsigned long` and `size_t` have 32 bits (the program is built with `-m32`); wrapping is
  written out where it happens (`MenuText.Wrap`, `FormatRendering.Unsigned`).
- Floats are exact real numbers of the form n / 2^k (`Scaling.IsDyadic`). A cell holds an IEEE
  754 binary32 value with a 24-bit significand, and at most nine places are printed, so the
  products the printer forms fit the 53 bits of a double and its arithmetic is exact.
- Game time is a real number; `0.1f` is 0.1.
- `FormatRendering.Undefined` stands for what C++ leaves undefined in `formatString`: a format
  that ends inside a directive (lines 549-552), `%c` padded past the end of the buffer (495-502),
  the negation of the smallest cell (464), a sign on an empty field of width 0 (99-100), a width
  beyond `int`, a NaN or an infinity.

## Where the code differs from what it says

- A sign takes the place of a digit when the digits alone fill the width: `%3d` of -123 prints
  `-23`. `#` does the same with up to two digits (`ReadBack.LostDigits`).
- The half-way branch of `_ftoa` has no carry and rounds an even 0 up. Neither matters: a
  binary fraction is never half-way there (`FloatPrinter.TieFraction`).
- A number padded with spaces on the left gives up padding before digits when the buffer is
  too short, so a truncated output is not always a prefix (`FormatTruncation.CutNumberIsNoPrefix`;
  exactly when it is: `FormatTruncation.TruncationIsPrefixIff`).
- On bytes that are no UTF-8, trimming twice can remove more than once
  (`Utf8Trim.NotIdempotentOnRawBytes`, `Utf8Trim.SecondPassIff`).
- `ShowMenu` means to send pieces of 175 bytes, but hands the writer a pointer, so each message
  carries the whole rest of the menu (`MenuText.TextsMakeUpMenuIffOne`); and past 512 bytes its
  loop does not end (`MenuText.HaltsIffShort`).
- The start of a page is computed with the hidden items of the first page * itemsPerPage items,
  not of those before the start (`MenuPaging.PageIsExact`). Next is offered by the same count, so
  it can be missing while items are left, or lead to an empty page (`MenuNavigation.NextIsRightIff`,
  `MenuWalk.HiddenItemsRepeatAndLose`, `MenuWalk.NextToEmptyPage`). When the pages together show every
  visible item once is said by `MenuWalk.WalkShowsAllIff`.
- With static items a page that is offered can read past the items
  (`MenuNavigation.StaticsLeadOutOfRange`, `MenuNavigation.InRangeIffNavigable`).
- A static item that hides makes a display go round for ever if the filling loop reaches it, and
  with eight to ten items to a page an eighth line pushes Exit beyond the ten slots
  (`MenuFilling.HiddenStaticHangs`, `MenuFilling.LongPageOverflows`, `MenuFilling.DisplayFailsIff`).
- `destroyMenu` closes the menu only for players in game (`MenuLifetime.DestroyDanglesIff`).
- The throttle of timers is never set back, so timers stall when game time starts again lower: a
  timer is on time exactly if the throttle is at most a tenth of a second past its due time
  (`TimerLateness.StallsUntilNext`, `TimerLateness.OnTimeIff`).
- `ExecType::Ignore` is documented to ignore results, but it is 0 and `execType & Ignore` is
  never true: ignored results are aggregated (`ForwardDispatch.WithoutStopHighestWins`).
- A forward parameter of type `Array` can be pushed but is not handed to the plugin; one of type
  `Int | Array` would be handed over but has no push (`ForwardParams.ArraysNeverArrive`,
  `ForwardParams.CanBeFilledIff`).
- The handle of a null pointer cannot be freed (`Handles.AllAccountedForIff`).

## Model

| member | source | states |
|---|---|---|
| `Numerals.DigitsDenote` | subprojects/sourcepawn/PrintfImpl.cpp:148-156 | the digits generated for a number denote that number, in every base from 2 to 16 and in either case |
| `Numerals.DigitsFit` | subprojects/sourcepawn/PrintfImpl.cpp:35-37 | a number of n bits never needs more than n digits, so the 32-character scratch buffer suffices for every base |
| `NumberLayout.PutDigits` | subprojects/sourcepawn/PrintfImpl.cpp:150-155 | the digit loop, which fills the scratch buffer backwards, puts exactly the shortest numeral in front of what the buffer holds |
| `NumberLayout.PutZeros` | subprojects/sourcepawn/PrintfImpl.cpp:72-77 | zero padding leads the text up to the target and never passes the 32 characters |
| `NumberLayout.PutSign` | subprojects/sourcepawn/PrintfImpl.cpp:98-112 | '-' wins over '+' over ' '; the sign displaces the leading character exactly when the text fills the width, and is dropped when the scratch buffer is full |
| `NumberLayout.PutText` | subprojects/sourcepawn/PrintfImpl.cpp:113-131 | padding, reversing and cutting write exactly the placed text behind what the buffer held |
| `NumberLayout.Place` | subprojects/sourcepawn/PrintfImpl.cpp:113-131 | the output has min(room, max(length, width)) characters, and min(room, length) when right-justified and zero-padded |
| `NumberLayout.PlaceIsJustify` | subprojects/sourcepawn/PrintfImpl.cpp:113-131 | a field that fits is written whole |
| `NumberLayout.PlaceIsPrefix` | subprojects/sourcepawn/PrintfImpl.cpp:113-131 | a cut field is a prefix of the full one if and only if it is left-justified, zero-padded, not padded, wide enough, or blank |
| `IntPrinter.PutHash` | subprojects/sourcepawn/PrintfImpl.cpp:79-96 | the '#' branch replaces one or two leading characters by the prefix, as far as the scratch buffer reaches |
| `IntPrinter.PrintInt` | subprojects/sourcepawn/PrintfImpl.cpp:134-159 | for every 32-bit magnitude, base, precision, width and flags the buffer gains exactly the cut, justified integer text, with all indices in range |
| `ReadBack.IntRoundTrip` | subprojects/sourcepawn/PrintfImpl.cpp:56-159 | reading a printed integer back gives the number if and only if something is printed, no sign displaces a digit and no minus is dropped |
| `ReadBack.HashRoundTrip` | subprojects/sourcepawn/PrintfImpl.cpp:79-96 | reading a hexadecimal or octal number with its prefix back gives the number if and only if the room taken for the prefix was padding and the prefix is whole |
| `ReadBack.LostDigits` | subprojects/sourcepawn/PrintfImpl.cpp:98-100 | two fields that lose digits to a sign and to a prefix |
| `Scaling.TieNeedsFive` | subprojects/sourcepawn/PrintfImpl.cpp:188-204 | a binary fraction is half-way between two multiples of 10^-p only where 5 divides 2 * frac + 1 |
| `FloatPrinter.RoundHalfEvenIsNearest` | subprojects/sourcepawn/PrintfImpl.cpp:187-223 | the rounding used as the specification is the one nearest integer, even when two are equally near, and nothing else is |
| `FloatPrinter.TieFraction` | subprojects/sourcepawn/PrintfImpl.cpp:202-204 | in a tie the fraction is neither 0 nor 10^p - 1, so the missing carry and the odd zero case never matter |
| `FloatPrinter.RoundsFraction` | subprojects/sourcepawn/PrintfImpl.cpp:187-204 | rounding the fraction alone, ties by its last digit, rounds the whole number half to even |
| `FloatPrinter.SplitAndRound` | subprojects/sourcepawn/PrintfImpl.cpp:187-223 | whole part and fraction after rounding denote the value times 10^p rounded half to even, with a fraction below 10^p |
| `FloatPrinter.PutFraction` | subprojects/sourcepawn/PrintfImpl.cpp:226-240 | the fraction loop and its zeros give exactly p places behind the point |
| `FloatPrinter.DecimalFits` | subprojects/sourcepawn/PrintfImpl.cpp:206-249 | every value that is printed takes at most 20 characters before padding, so no digit is lost in the scratch buffer |
| `FloatPrinter.PrintFloat` | subprojects/sourcepawn/PrintfImpl.cpp:161-291 | the buffer gains exactly the cut, justified text of the rounded value, or nothing for a magnitude over 2^31 - 1 |
| `FloatReadBack.DecimalDenotes` | subprojects/sourcepawn/PrintfImpl.cpp:224-249 | the digits of a printed decimal, point left out, denote its number of units |
| `FloatReadBack.FloatRoundTrip` | subprojects/sourcepawn/PrintfImpl.cpp:161-291 | reading a printed float back gives the signed rounded value if and only if no sign displaces a digit and no minus that matters is dropped |
| `FormatSyntax.ParseUnparse` | subprojects/sourcepawn/PrintfImpl.cpp:317-418 | parsing a written format gives back its directives, for every sequence of directives the syntax can express |
| `FormatSyntax.ScanDirective` | subprojects/sourcepawn/PrintfImpl.cpp:317-418 | every directive strictly shortens the rest of the format |
| `FormatRendering.CellFloatIsDyadic` | subprojects/sourcepawn/PrintfImpl.cpp:481-483 | every finite float a cell can hold is a binary fraction, so the rounding theorem covers it |
| `FormatRendering.RenderThatFits` | subprojects/sourcepawn/PrintfImpl.cpp:317-555 | a rendering that fits the room reaches the buffer whole |
| `FormatTruncation.TruncationIsPrefixIff` | subprojects/sourcepawn/PrintfImpl.cpp:317-561 | a rendering that does not fit fills the buffer, with a prefix of the full rendering if and only if the first field that exceeds the room left is cut cleanly |
| `FormatTruncation.FieldExceeds` | subprojects/sourcepawn/PrintfImpl.cpp:417-554 | a field longer than the room fills the room, with a prefix of the field if and only if it is text or a number cut cleanly |
| `FormatTruncation.TruncationIsPrefix` | subprojects/sourcepawn/PrintfImpl.cpp:317-561 | for literals, strings, characters, and numbers that are left-justified, zero-padded or without width, the buffer holds the first `room` characters of the full rendering |
| `FormatTruncation.CutNumberIsNoPrefix` | subprojects/sourcepawn/PrintfImpl.cpp:113-123 | a truncated right-justified number that is no prefix |
| `FormatString.ReadField` | subprojects/sourcepawn/PrintfImpl.cpp:329-418 | the imperative reading of flags, width, precision and conversion agrees with the grammar |
| `FormatString.PrintText` | subprojects/sourcepawn/PrintfImpl.cpp:487-541 | `%s` and `%c` write the first `room` characters of the justified text |
| `FormatString.PrintField` | subprojects/sourcepawn/PrintfImpl.cpp:417-554 | each conversion appends its bounded field and nothing else |
| `FormatString.Interpret` | subprojects/sourcepawn/PrintfImpl.cpp:317-554 | one turn of the interpreter appends its directive's rendering, and fails exactly when a parameter is missing |
| `FormatString.FormatFields` | subprojects/sourcepawn/PrintfImpl.cpp:317-555 | the loop writes exactly the bounded rendering of the parsed format, or reports a missing parameter |
| `FormatString.Format` | subprojects/sourcepawn/PrintfImpl.cpp:293-562 | returns the number of characters and leaves the rendering, cut to the buffer, with its terminator; a rendering shorter than the buffer is left whole; a missing parameter gives 0 |
| `FormatMeaning.RenderConcat` | subprojects/sourcepawn/PrintfImpl.cpp:317-555 | two formats put together print what they print apart, the second starting at the parameter where the first stopped |
| `FormatMeaning.MissingIffTooFew` | subprojects/sourcepawn/PrintfImpl.cpp:307-315 | a parameter is missing if and only if the format asks for more than were passed, one per conversion and one more per star |
| `FormatMeaning.RenderReadsInOrder` | subprojects/sourcepawn/PrintfImpl.cpp:374-380 | the output depends on no parameter but those the directives take, from left to right |
| `FormatConversions.JustifyMeans` | subprojects/sourcepawn/PrintfImpl.cpp:113-131 | a number is padded with spaces on the right with '-', not at all with '0' alone, else on the left |
| `FormatConversions.DigitTable` | subprojects/sourcepawn/PrintfImpl.cpp:153 | the sixteen digit characters of either case |
| `FormatConversions.DigitsCase` | subprojects/sourcepawn/PrintfImpl.cpp:153 | a numeral has capital letters just when upper case is asked for |
| `FormatConversions.SignStands` | subprojects/sourcepawn/PrintfImpl.cpp:98-112 | '-' for a negative number, else '+' if asked for, else ' '; it takes the place of the leading character of a text as wide as the field, and a text of 32 characters gets none |
| `FormatConversions.SignedPrints` | subprojects/sourcepawn/PrintfImpl.cpp:460-467 | %d and %i print nothing defined just for the smallest cell and for a sign on an empty text of width 0 |
| `FormatConversions.SignedShows` | subprojects/sourcepawn/PrintfImpl.cpp:430-467 | %d and %i print the cell's decimal digits under zeros up to precision and width, the sign, and spaces |
| `FormatConversions.SignedReads` | subprojects/sourcepawn/PrintfImpl.cpp:430-467 | %d and %i read back in base 10 as the cell if and only if there is a digit, no sign displaces one and no minus is dropped |
| `FormatConversions.UnsignedShows` | subprojects/sourcepawn/PrintfImpl.cpp:430-472 | %u prints in base 10, %b in 2, %o in 8, %x and %X in 16 with capitals for %X alone, without sign, with a prefix for %o, %x and %X alone |
| `FormatConversions.UnsignedReads` | subprojects/sourcepawn/PrintfImpl.cpp:430-472 | %u, %b, %o, %x and %X without a prefix read back in bases 10, 2, 8 and 16 as the cell modulo 2^32, if and only if there is a digit |
| `FormatConversions.PrefixedReads` | subprojects/sourcepawn/PrintfImpl.cpp:430-472 | %o, %x and %X with '#' read back in bases 8 and 16 as the cell modulo 2^32, if and only if the room taken for the prefix was zeros and a hexadecimal prefix is whole or left out |
| `FormatConversions.FloatPrints` | subprojects/sourcepawn/PrintfImpl.cpp:206-210 | %f prints always something, and nothing but for magnitudes over 2147483647 |
| `FormatConversions.FloatShows` | subprojects/sourcepawn/PrintfImpl.cpp:161-291 | %f prints the value rounded half to even with six places without a precision, as many as the precision up to nine, nine above, under zeros, sign and spaces |
| `FormatConversions.DecimalPlaces` | subprojects/sourcepawn/PrintfImpl.cpp:224-249 | a printed decimal has exactly p digits behind its one point, and no point for no places |
| `FormatConversions.FloatReads` | subprojects/sourcepawn/PrintfImpl.cpp:161-291 | %f reads back as the value times 10^6, 10^precision or 10^9 rounded half to even, if and only if no sign displaces a digit and no minus that matters is dropped |
| `FormatConversions.FixedHasPlaces` | subprojects/sourcepawn/PrintfImpl.cpp:224-249 | text that reads back with p places has exactly p digits behind its one point, and no point for no places |
| `FormatConversions.StringShows` | subprojects/sourcepawn/PrintfImpl.cpp:512-541 | %s prints as much of the string as the precision allows, in a field of the width |
| `FormatConversions.CharShows` | subprojects/sourcepawn/PrintfImpl.cpp:487-511 | %c prints the first character of the string, or its terminator, in a field of the width |
| `FormatConversions.OtherShows` | subprojects/sourcepawn/PrintfImpl.cpp:543-553 | any other character behind '%' prints itself |
| `FormatFields.FlagsSay` | subprojects/sourcepawn/PrintfImpl.cpp:329-364 | flags count in any order and number: '0', '-', '+', ' ' and '#', up to the first other character |
| `FormatFields.StarAndPoint` | subprojects/sourcepawn/PrintfImpl.cpp:374-415 | a star is read as one, and a point without digits or star is precision zero |
| `FormatFields.ArgsCounted` | subprojects/sourcepawn/PrintfImpl.cpp:374-414 | a directive takes one parameter for each star and one for a conversion that prints a value |
| `FormatFields.FieldMeans` | subprojects/sourcepawn/PrintfImpl.cpp:366-418 | a starred width is the first parameter, a starred precision the next, the value the last; a negative width means left and its magnitude, a precision counts modulo 2^32 |
| `FormatFields.FieldFails` | subprojects/sourcepawn/PrintfImpl.cpp:366-415 | a number past `int`, the smallest cell as a width, or a star without its parameter prints no field |
| `FormatFields.EscapedPrintsItself` | subprojects/sourcepawn/PrintfImpl.cpp:317-324 | any text with its '%' doubled prints as it is, without a parameter |
| `FormatFields.CellIsFloat` | subprojects/sourcepawn/PrintfImpl.cpp:481-483 | a cell of sign, exponent and fraction bits is the IEEE 754 binary32 number they stand for, subnormal ones included |
| `Utf8Trim.TrimMultiByteChar` | src/UtilsSystem.cpp:81-137 | the search for the last lead byte stays in range and removes exactly a last character shorter than announced |
| `Utf8Trim.FitsIsLargest` | src/UtilsSystem.cpp:81-137 | the number of characters in the specification is the largest whose encoding fits |
| `Utf8Trim.TrimIsLongestValidPrefix` | src/UtilsSystem.cpp:81-137 | for every sequence of code points and every nonempty byte prefix of its RFC 3629 encoding, trimming leaves the encoding of the most whole characters that fit |
| `Utf8Trim.ValidIsKept` | src/UtilsSystem.cpp:81-137 | valid text is left alone |
| `Utf8Trim.TrimIsIdempotent` | src/UtilsSystem.cpp:81-137 | trimming a nonempty result again changes nothing |
| `Utf8Trim.KeptIffWhole` | src/UtilsSystem.cpp:81-137 | on any bytes, trimming removes nothing if and only if the last lead byte announces no more bytes than there are |
| `Utf8Trim.SecondPassIff` | src/UtilsSystem.cpp:81-137 | on any bytes, a second pass over a nonempty result finds a lead byte and removes nothing if and only if the bytes, or those before their last lead, end in a whole character |
| `Utf8Trim.NotIdempotentOnRawBytes` | src/UtilsSystem.cpp:109-136 | bytes that are no UTF-8 and are trimmed twice |
| `Utf8Codes.ByteRanges` | src/UtilsSystem.cpp:86-136 | which bytes are ASCII, continue a character, or announce two, three or four bytes |
| `Utf8Codes.DecodeEncode` | src/UtilsSystem.cpp:81-137 | the encoding of the specification gives every code point back, in the fewest bytes |
| `MenuText.HaltsIffShort` | src/UtilsSystem.cpp:63-78 | the sending loop ends if and only if the menu has at most 512 bytes |
| `MenuText.NeverEnds` | src/UtilsSystem.cpp:66-78 | past 512 bytes the loop variables stand still from the third turn on |
| `MenuText.ShowMenu` | src/UtilsSystem.cpp:55-79 | up to 512 bytes the loop sends exactly the messages of the specification, and none without the game's message |
| `MenuText.PiecesMakeUpMenu` | src/UtilsSystem.cpp:66-78 | the pieces concatenate to the menu, all but the last have 175 bytes and announce more, and each text is all that is left of the menu |
| `MenuText.TextsMakeUpMenuIffOne` | src/UtilsSystem.cpp:73-73 | what the writer puts out makes up the menu if and only if one message is enough |
| `MenuPaging.StartIsNatural` | src/MenuSystem.cpp:94-113 | the start of a page never wraps below zero, whatever is hidden or static |
| `MenuPaging.FillShows` | src/MenuSystem.cpp:133-155 | the filling loop takes visible items in order until the slots without static items are full, and stops right behind them |
| `MenuPaging.PageShows` | src/MenuSystem.cpp:94-192 | a page shows the first visible items from its start, as many as it has free slots |
| `MenuPaging.PageIsExact` | src/MenuSystem.cpp:94-155 | a page shows its share of the visible items if and only if as many items are hidden before its start as among the first page * itemsPerPage, or none are left |
| `MenuPaging.PageIsOrdered` | src/MenuSystem.cpp:115-206 | slots rise, each line shows the item its slot calls for with the callback's answer, items stay below slot 7, Next, Back and Exit have 7, 8 and 9, and Exit is always there |
| `MenuPaging.StaticsKeepTheirSlots` | src/MenuSystem.cpp:133-179 | every static item whose callback does not answer Hide is drawn in its own slot, as it answers |
| `MenuPaging.VisibleIs` | src/MenuSystem.cpp:137-145 | an item is visible unless its callback answers Hide |
| `MenuPaging.RowsCarryAnswers` | src/MenuSystem.cpp:117-149 | the line of regular item i carries the answer of item i's callback, that of static slot s the answer of its callback, and only an item without a callback is enabled without one |
| `MenuFilling.HangsIff` | src/MenuSystem.cpp:133-155 | the filling loop does not end if and only if it reaches a hidden static item, which the visible items and the free slots before it decide |
| `MenuFilling.FillsIff` | src/MenuSystem.cpp:133-155 | the filling loop draws a line in a slot if and only if it reaches the static item there or visible items last that far |
| `MenuFilling.DisplayFailsIff` | src/MenuSystem.cpp:133-206 | a display fails if and only if the filling loop reaches a hidden static item or, with more than seven items to a page, draws an eighth line |
| `MenuFilling.HiddenStaticHangs` | src/MenuSystem.cpp:140-146 | a menu of one item whose page 0 is never drawn |
| `MenuFilling.LongPageOverflows` | src/MenuSystem.cpp:205-206 | a menu of eight items to a page whose Exit needs an eleventh slot |
| `MenuNavigation.PlainPage` | src/MenuSystem.cpp:94-192 | with nothing hidden, f free slots and page * itemsPerPage items there, page p, if it can be drawn, shows the items from p * f up to min(n, (p + 1) * f), in order |
| `MenuNavigation.PlainNext` | src/MenuSystem.cpp:183-192 | with nothing hidden, Next is offered if and only if items are left |
| `MenuNavigation.NextIsRightIff` | src/MenuSystem.cpp:97-104 | whatever is hidden, Next is offered just when visible items are left, if and only if the items left outnumber those hidden on earlier pages just when they outnumber those hidden among them |
| `MenuNavigation.FillGains` | src/MenuSystem.cpp:133-155 | a page filled to its last slot has passed an item for each free slot |
| `MenuNavigation.NextGains` | src/MenuSystem.cpp:183-192 | an offered Next leads to a page p with p * f < n, whatever is hidden |
| `MenuNavigation.RunHasItems` | src/MenuSystem.cpp:462-469 | over every run of offered keys the page is 0 or has p * f < n |
| `MenuNavigation.NavigationInRange` | src/MenuSystem.cpp:97-104 | without static items, whatever is hidden, every page reached by offered keys is 0 or has page * itemsPerPage < n, so item reads stay in range |
| `MenuNavigation.InRangeIffNavigable` | src/MenuSystem.cpp:97-113 | whatever is static or hidden, item reads stay in range over all runs if and only if the last page that can be offered is in range |
| `MenuNavigation.WithoutStaticsNavigable` | src/MenuSystem.cpp:97-113 | without static items the last page offered is always in range |
| `MenuNavigation.StaticsLeadOutOfRange` | src/MenuSystem.cpp:97-113 | a menu with one static item whose offered page 2 reads past its items |
| `MenuNavigation.OfferedCanShow` | src/MenuSystem.cpp:462-469 | a page turned to by an offered key is in range and can be drawn, if no static item hides |
| `MenuWalk.PageSplits` | src/MenuSystem.cpp:94-155 | a page takes the first visible items from its start and leaves exactly the others behind where it stops |
| `MenuWalk.FromIsLeftIff` | src/MenuSystem.cpp:94-113 | from its start on a page finds exactly what the pages before it should have left if and only if it starts right |
| `MenuWalk.WalkShowsAllIff` | src/MenuSystem.cpp:94-192 | following Next from page 0 shows every visible item exactly once, in order, and stops, if and only if each page on the way starts right and the last stops with none left |
| `MenuWalk.WalkShowsAll` | src/MenuSystem.cpp:94-192 | with nothing hidden and pages in range, following Next from page 0 shows every item exactly once, in order, and stops |
| `MenuWalk.HiddenItemsRepeatAndLose` | src/MenuSystem.cpp:97-113 | a menu with hidden items that shows one item twice and another never |
| `MenuWalk.NextToEmptyPage` | src/MenuSystem.cpp:183-192 | a menu that offers Next to a page without items |
| `MenuDrawing.CountHidden` | src/MenuSystem.cpp:99-103 | the first loop counts the hidden items before page * itemsPerPage |
| `MenuDrawing.FillLoop` | src/MenuSystem.cpp:133-155 | the filling loop draws, keys and slots exactly the rows of the specification, and leaves slot and item where it says |
| `MenuDrawing.StaticLoop` | src/MenuSystem.cpp:159-179 | the loop over the slots left draws exactly the static items there |
| `MenuDrawing.KeysMatchSlots` | src/MenuSystem.cpp:117-149 | adding rows sets exactly the key bits of the enabled ones, gives each row's slot its item, and leaves slots below untouched |
| `MenuDrawing.DrawPage` | src/MenuSystem.cpp:83-212 | a whole display draws exactly the page of the specification |
| `MenuDrawing.PageKeys` | src/MenuSystem.cpp:115-211 | after a display a key bit is set if and only if the row at its slot is enabled, the slot holds that row's item, and 7, 8 and 9 work Next, Back and Exit alone |
| `MenuDrawing.KeysAnswer` | src/MenuSystem.cpp:115-149 | a key bit is set if and only if a line stands at its slot and the callback of the item there answered Enabled, or there is none |
| `MenuDrawing.DrawnKeys` | src/MenuSystem.cpp:181-206 | of any drawn page, key bits stay below ten, Next stands at 7 just when offered and Back at 8 just when there is a page before, and nowhere else |
| `MenuDrawing.DisplayRestores` | src/MenuSystem.cpp:83-212 | displaying a page again restores its rows, keys and keyed slots, whatever was displayed in between |
| `MenuDrawing.NextThenBackRestores` | src/MenuSystem.cpp:462-469 | Next followed by Back leads to the page one came from with the same rows, keys and keyed slots, whatever the page in between drew |
| `MenuDrawing.NavigationAlone` | src/MenuSystem.cpp:181-206 | slots 7 and 8 can hold nothing but Next and Back |
| `MenuLifetime.StepKeepsSafe` | src/MenuSystem.cpp:382-484 | registering, displaying to players in game, selecting, destroying, closing, connecting, disconnecting and map ends keep every player's menu registered, held by a player in game, and no menu twice |
| `MenuLifetime.NeverDangling` | src/MenuSystem.cpp:401-484 | over every run no player's menu dangles |
| `MenuLifetime.ReachableIsSafe` | src/dllapi.cpp:166-169 | in particular from a server without menus, map ends included |
| `MenuLifetime.DestroyDanglesIff` | src/MenuSystem.cpp:406-417 | destroying a menu leaves it dangling if and only if a player who is not in game holds it |
| `MenuLifetime.DisplayOutOfGameDangles` | src/MenuSystem.cpp:80-81 | a display to a player not in game, then destroying the menu, leaves it dangling |
| `MenuLifetime.StepMeans` | src/MenuSystem.cpp:382-484 | what each event does to each player and to the list of menus, field by field |
| `MenuLifetime.DisplayedIsHeld` | src/MenuSystem.cpp:75-81 | over every run, a menu displayed stays with its player, on its page and registered, until the player or somebody's choice ends it |
| `MenuLifetime.StaysInGame` | src/PlayerSystem.cpp:98-113 | over every run, a player in game stays so until disconnecting |
| `Menus.Menu.constructor` | src/MenuSystem.cpp:65-73 | a new menu has seven items to a page, no item, no static item and no key |
| `Menus.Menu.SetItemsPerPage` | src/MenuSystem.cpp:245-248 | at most ten items to a page, which keeps every page within the table of static items |
| `Menus.Menu.SetStaticItem` | src/MenuSystem.cpp:291-301 | a static item is taken if and only if its position is on the page as configured, and nothing else changes |
| `Menus.Menu.Display` | src/MenuSystem.cpp:75-218 | the player holds this menu and page; text, keys and slots are those of the page and agree with each other and with the callbacks' answers, also with up to ten items to a page; a text menu keeps its own; the items stay |
| `Menus.Player.Disconnect` | src/PlayerSystem.cpp:98-108 | a player who leaves holds no menu and is neither connected nor in game |
| `Menus.MenuManager.RegisterMenu` | src/MenuSystem.cpp:382-399 | a fresh menu is appended and no player changes |
| `Menus.MenuManager.CloseForAll` | src/MenuSystem.cpp:403-417 | exactly the players in game who hold the menu let go of it |
| `Menus.MenuManager.EraseMenu` | src/MenuSystem.cpp:419-428 | exactly the first occurrence leaves the list |
| `Menus.MenuManager.DestroyMenu` | src/MenuSystem.cpp:401-429 | is the destroying step of the lifetime machine: players in game who hold the menu let go of it, no other player does |
| `Menus.MenuManager.DisplayTo` | src/MenuSystem.cpp:75-81 | is the displaying step of the lifetime machine: one player changes; page 0 opens a session of one viewer |
| `Menus.MenuManager.DisconnectPlayer` | src/PlayerSystem.cpp:98-108 | is the disconnecting step: that player leaves and holds no menu |
| `Menus.MenuManager.PutInServer` | src/PlayerSystem.cpp:110-113 | is the step that puts a player in game |
| `Menus.MenuManager.EndMap` | src/PlayerSystem.cpp:361-369 | with the clearing of menus, is the map-end step: no menus, no player holding one, all on page 0 |
| `Menus.MenuManager.ActOnItem` | src/MenuSystem.cpp:462-473 | Next and Back turn the page by one; any other item destroys a menu that is not global |
| `Menus.MenuManager.PressKey` | src/MenuSystem.cpp:452-479 | a key that works is one step of the lifetime machine, and a page turned to is shown as its callbacks answer |
| `Menus.MenuManager.ClientCommand` | src/MenuSystem.cpp:436-484 | a key acts if and only if the player holds a menu with that key bit; the whole command is one step of the lifetime machine |
| `Menus.MenuManager.ViewerKeys` | src/MenuSystem.cpp:462-473 | in a session of one viewer a key turns the page if and only if it is 8 or 9 and the move is offered, and to the page before or after; no key lies beyond the slots, no Back stands on page 0 |
| `Menus.MenuManager.SessionCanPress` | src/MenuSystem.cpp:452-470 | a session of one viewer meets all that a key press needs, if no static item hides and the menu is navigable |
| `Menus.MenuManager.ViewerCommand` | src/MenuSystem.cpp:436-484 | every command that turns the page goes on with the session: the page held is the one the moves lead to, and the menu shows it |
| `MessageFilter.FoldMeans` | src/MessageSystem.cpp:213-239 | the answer of the hooks is Ignored if and only if every enabled hook of the phase answers Ignored, Stop if and only if one stops; without a Stop the edits of all of them are made, in order |
| `MessageFilter.FoldAsksActive` | src/MessageSystem.cpp:217-222 | whatever disabled hooks and hooks of the other phase would reply, result and parameters are the same |
| `MessageFilter.EditsOfOneMore` | src/MessageSystem.cpp:217-226 | one more hook adds its edits, last, if it is enabled and of the phase |
| `MessageFilter.LastEditDecides` | src/MessageSystem.cpp:121-124 | a parameter has the data of its last edit, and an unedited one its own |
| `MessageFilter.ManagementMeans` | src/MessageSystem.cpp:261-298 | what registering, blocking, enabling and clearing do to the hooks and block of every type; a new hook is active and last |
| `MessageFilter.UnregisterTakesFirst` | src/MessageSystem.cpp:200-212 | unregistering takes the first occurrence out, and nothing else |
| `MessageFilter.ApplyEdits` | src/MessageSystem.cpp:121-124 | handlers' edits keep the number, order and kinds of the parameters |
| `MessageFilter.ItemRefines` | src/MessageSystem.cpp:300-357 | the calls of one message, with hooks and blocks managed in between, send exactly what the filter lets through and leave nothing behind |
| `MessageFilter.MachineRefinesFilter` | src/MessageSystem.cpp:300-357 | over every well-bracketed run the begin, write and end calls send exactly what the message-level filter sends, in order, and between messages no block flag or parameter is left over |
| `MessageFilter.MessageOnceOrNot` | src/MessageSystem.cpp:300-357 | an unhooked message comes out as written, a blocked one not at all, a hooked one once with all edits made if and only if every running pre hook ignores it |
| `MessageFilter.HookedComesOutIff` | src/MessageSystem.cpp:336-357 | a hooked message comes out if and only if every enabled pre hook answers Ignored |
| `MessageFilter.FilterAsksActive` | src/MessageSystem.cpp:217-222 | what disabled hooks and post hooks would reply changes nothing that comes out |
| `MessageFilter.OnceBlocksFirst` | src/MessageSystem.cpp:322-329 | under a Once block a message of the type is swallowed if and only if it is the first of its type |
| `MessageFilter.OnceSwallowsOne` | src/MessageSystem.cpp:322-329 | and the block is used up by exactly that message, in every run that leaves the block alone |
| `MessageFilter.AlwaysSwallowsAll` | src/MessageSystem.cpp:302-307 | a Set block swallows every message of its type and stays |
| `Messages.MessageManager.constructor` | src/MessageSystem.cpp:251-259 | a new manager is idle and passes every message, whatever its uninitialised flag holds |
| `Messages.MessageManager.MessageBegin` | src/MessageSystem.cpp:300-318 | is the begin step of the machine; the engine sees the call if and only if the type is neither blocked nor hooked |
| `Messages.MessageManager.WriteParam` | src/MessageSystem.hpp:159-172 | is the write step of the machine: swallowed, buffered or passed on |
| `Messages.MessageManager.ExecHandlers` | src/MessageSystem.cpp:213-239 | the loop over the hooks computes the specified fold of answers and edits, and calls the enabled hooks of the phase, in order, up to a Stop |
| `Messages.MessageManager.AskedOneMore` | src/MessageSystem.cpp:217-232 | a further hook is called if and only if it is enabled, of the phase, and no such hook before it answered Stop |
| `Messages.MessageManager.Exec` | src/MessageSystem.cpp:43-79 | replaying sends the header, every parameter in order with its kind, and the end |
| `Messages.MessageManager.MessageEnd` | src/MessageSystem.cpp:320-357 | is the end step of the machine: a Once block is used up, a hooked message is replayed or dropped, the buffer is emptied; pre hooks are called, post hooks only if every enabled pre hook ignored the message |
| `Messages.MessageManager.SetMessageBlock` | src/MessageSystem.cpp:277-280 | exactly that type gets the block |
| `Messages.MessageManager.RegisterHook` | src/MessageSystem.cpp:261-264 | a fresh active hook is appended to its type's list |
| `Messages.MessageManager.UnregisterHook` | src/MessageSystem.cpp:266-270 | exactly that hook leaves its type's list |
| `Messages.MessageManager.SwitchHook` | src/MessageSystem.cpp:162-169 | enabling or disabling changes that hook wherever it is registered and no other |
| `Messages.MessageManager.ClearMessages` | src/MessageSystem.cpp:292-298 | all hooks go, blocks stay |
| `Scheduling.SweepFiresDue` | src/TimerSystem.cpp:80-98 | a sweep fires exactly the timers due when it comes, each once, in list order |
| `Scheduling.SweepKeeps` | src/TimerSystem.cpp:80-98 | a sweep leaves a timer if and only if it is paused, its interval has not passed, or its callback wants to go on |
| `Scheduling.SweepLeaves` | src/TimerSystem.cpp:87-91 | a timer not due is left as it is |
| `TimerRuns.SweepRecorded` | src/TimerSystem.cpp:57-98 | through a sweep every firing stays justified and every timer's fields go on saying what the log says |
| `TimerRuns.NeverTooEarly` | src/TimerSystem.cpp:42-61 | over every run, a timer fires from a sweep only unpaused and at least its current interval after the latest of creation, execution, unpause and interval change |
| `TimerLateness.RunKeepsReady` | src/TimerSystem.cpp:42-61 | over every run in which time does not go back, the throttle is at most 0.1 past the due time of every unpaused timer, and the last frame was no chance to fire it |
| `TimerLateness.NeverTooLate` | src/dllapi.cpp:202-213 | from a start without timers and a throttle at most 0.1 ahead, time not going back and new intervals positive: with frames at most d apart, every unpaused timer of every state reached, left alone, fires less than 0.1 + d after it is due |
| `TimerLateness.CreatedFires` | src/TimerSystem.cpp:68-98 | over such runs, a timer created with an interval above zero, unpaused and then left alone fires from time + interval on and less than 0.1 + d later |
| `TimerLateness.GoneNeverFires` | src/TimerSystem.cpp:92-117 | over every run, a timer that was removed or cleared, or whose callback ended it, never fires again |
| `TimerLateness.WaitingFires` | src/dllapi.cpp:202-213 | the same bound for any state whose throttle is at most 0.1 past the due time |
| `TimerLateness.SweepLeavesWaiting` | src/dllapi.cpp:206-210 | a sweep before the due time leaves such a state, whatever the state before |
| `TimerLateness.FiresAtFirstFrame` | src/dllapi.cpp:206-210 | if the throttle is past the due time, a timer left alone first fires exactly at the first frame the throttle lets through |
| `TimerLateness.OnTimeIff` | src/dllapi.cpp:206-210 | a timer left alone is less than 0.1 + d late in all runs with frames at most d apart if and only if the throttle is at most 0.1 past its due time |
| `TimerLateness.StallsUntilNext` | src/dllapi.cpp:206-210 | while game time is below the throttle's, no timer fires, whatever is created or changed |
| `Timers.Timer.SetPause` | src/TimerSystem.cpp:48-55 | an unpause starts the wait anew, a pause does not |
| `Timers.Timer.Exec` | src/TimerSystem.cpp:57-61 | the execution time is set before the callback's own changes to the timer |
| `Timers.TimerManager.CreateTimer` | src/TimerSystem.cpp:68-78 | an interval of zero or less makes no timer and changes nothing; otherwise a fresh one with the interval, pause and time given is appended |
| `Timers.TimerManager.SweepTurn` | src/TimerSystem.cpp:85-96 | one turn passes over, fires, or fires and erases one timer and touches no other |
| `Timers.TimerManager.ExecTimers` | src/TimerSystem.cpp:80-98 | erasing while going through the list leaves exactly the timers of the specification, in order |
| `Timers.TimerManager.StartFrame` | src/dllapi.cpp:202-213 | is the frame step: a sweep if and only if the throttle's time has come |
| `Timers.TimerManager.RemoveTimer` | src/TimerSystem.cpp:105-117 | exactly that timer leaves the list |
| `Handles.CreateIsNeverLive` | subprojects/sourcepawn/TypeHandler.hpp:28-43 | a created handle was not live, stands for its object, and changes no other |
| `Handles.FreeTwiceIsOnce` | subprojects/sourcepawn/TypeHandler.hpp:69-76 | freeing twice is freeing once |
| `Handles.EveryRunIsSound` | subprojects/sourcepawn/TypeHandler.hpp:28-90 | after every run the handles are 0 to n - 1, the free ones are distinct and stand for null, live, free and null-made ones add up to n, and handles come back in the order they were freed |
| `Handles.LiveStays` | subprojects/sourcepawn/TypeHandler.hpp:28-76 | a live handle stands for its object through every run that does not free it |
| `Handles.AllAccountedForIff` | subprojects/sourcepawn/TypeHandler.hpp:69-76 | the free handles are exactly those standing for null, and live + free = n, if and only if no null pointer got a handle since the last clear |
| `TypeHandlers.TypeHandler.Create` | subprojects/sourcepawn/TypeHandler.hpp:28-43 | returns the first freed handle or the next number, never a live one, and get gives the object |
| `TypeHandlers.TypeHandler.Get` | subprojects/sourcepawn/TypeHandler.hpp:45-56 | null for a handle that was never given |
| `TypeHandlers.TypeHandler.GetKey` | subprojects/sourcepawn/TypeHandler.hpp:58-67 | a handle of the object, or the largest number if and only if no handle stands for it (or that is the handle) |
| `TypeHandlers.TypeHandler.Free` | subprojects/sourcepawn/TypeHandler.hpp:69-76 | a live handle goes to null and to the end of the queue, any other call changes nothing |
| `TypeHandlers.TypeHandler.Clear` | subprojects/sourcepawn/TypeHandler.hpp:78-85 | no handle and no free handle is left |
| `ForwardDispatch.FoldMeans` | subprojects/sourcepawn/ExtMain.cpp:261-292 | asking a row of plugins gives the largest result and 0 up to the first that ends it, or Stop itself, and asks no later plugin |
| `ForwardDispatch.Listen` | subprojects/sourcepawn/ExtMain.cpp:261-292 | an adapter's loop over its plugins, from any result so far, is that fold |
| `ForwardDispatch.Dispatch` | src/ForwardSystem.cpp:281-306 | several adapters in turn give the result of one early-stopping fold over all their plugins, and ask as many |
| `ForwardDispatch.WithoutStopHighestWins` | subprojects/sourcepawn/ExtMain.cpp:276-280 | without Stop, or where no plugin returns it, every plugin is asked and the largest of 0 and the results wins, for Ignore too |
| `ForwardDispatch.FirstStopEnds` | subprojects/sourcepawn/ExtMain.cpp:282-290 | with Stop alone the first stopping plugin wins over larger earlier results; with Highest the largest up to it; no later plugin is asked |
| `ForwardParams.ExecutionSees` | src/ForwardSystem.cpp:101-306 | after every run of push, reset and execute, an execution succeeds if and only if all parameters are filled, and its slots hold exactly the pushes accepted since the last reset or successful execution, in order and of the declared types |
| `ForwardParams.Accepted` | src/ForwardSystem.cpp:101-121 | there are never more accepted pushes than declared parameters |
| `ForwardParams.TypesOfPushes` | src/ForwardSystem.cpp:101-260 | the type bits each push asks for |
| `ForwardParams.CountIs` | src/ForwardSystem.cpp:74-83 | the number of parameters is the number of types with any bit set, wherever they stand |
| `ForwardParams.CanBeFilledIff` | src/ForwardSystem.cpp:69-84 | a forward can be executed by some pushes if and only if its counted types stand first and each has a push |
| `ForwardParams.ArraysNeverArrive` | subprojects/sourcepawn/ExtMain.cpp:139-218 | an execution hands a plugin the accepted pushes in order, except arrays |
| `Forwards.MultiForward.constructor` | src/ForwardSystem.cpp:69-84 | the parameters are counted over all 32 types, and none is pushed |
| `Forwards.MultiForward.Push` | src/ForwardSystem.cpp:101-260 | succeeds if and only if the type is the next one declared; otherwise nothing changes |
| `Forwards.MultiForward.ResetParams` | src/ForwardSystem.cpp:308-311 | pushing starts again from the first parameter |
| `Forwards.MultiForward.ExecFunc` | src/ForwardSystem.cpp:281-306 | fails and changes nothing unless all parameters are filled; else gives the meaning of all plugins' answers and starts pushing again |

## Left out

- Calls into the engine, Metamod, ReHLDS and the SourcePawn VM; loading, files, configuration and logging; native wrappers: foreign code or plumbing.
- Callbacks that re-enter what called them: menu handlers that display or destroy menus, timer callbacks that create or remove timers or change other timers, hooks that register hooks, plugins that push to the forward being executed.
- VTable patching, raw memory access, the cvar cache, commands with regular expressions, player authentication: outside the algorithms modelled.
- What `FormatRendering.Undefined` stands for, and `_ftoa` on values so large that the conversion to `int` is undefined before they are refused.
- The text of menu lines: title, number format, colours. Rows carry slot, item and status; the key mask is the set of its bits.
- `MenuText.ShowMenu`: asks for at most 512 bytes, because past them the loop does not end (`MenuText.HaltsIffShort`), and a method must.
- `MenuDrawing.DrawPage`: asks for a page in range whose filling ends within seven lines; otherwise the program reads past the items, goes round for ever, or writes past the slots (`MenuFilling.DisplayFailsIff`). `Menus.Menu.Display` asks the same.
- `Menus.MenuManager.ActOnItem`: leaves out Back on page 0, which only the keys of another viewer's display can bring and which wraps to page 2^32 - 1.
- `Menus.MenuManager.ClientCommand`: with a menu held, leaves out the keys 0 and above 32, for which the shift is undefined, and key bits past the ten slots that a plugin sets itself on an item menu.
- Item callbacks that answer differently within one display, and several viewers sharing one menu's keys and slots.
- A change of the number of players while a map runs.
- Message origins that are null, which the program dereferences; edits of parameters that are not there or with data of another type (`MessageFilter.ApplyEdit` ignores them, `Messages.MessageManager.MessageEnd` excludes them).
- Rounding of game time and of intervals in single precision.
- Copy-back and string flags of forward parameters, and forwards for a single plugin.
- `Handles.LiveStays`: says nothing of two handles given to the same object.
