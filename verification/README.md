# Verified models of the JSON engine, the worker pool and some text algorithms

This project models, in Dafny 4.11, the parts of the repository where a mistake
would be hardest to see, and proves what they are for.

* **cJSON** (`src/test_lib/test_lib/lib/cJSON/cJSON/cJSON.c`). Text is a
  sequence of bytes in front of its terminator, a value is a recursive
  datatype, and the linked `next`/`prev`/`child` tree is a heap of `Node`
  objects whose shape stands for a value.
  `Parser` and `Printer` say what the parser computes and what the printers
  write; `StringParser`, `TreeParser`, `ScalarPrinter`, `AllocPrinter`,
  `BufferedPrinter` and `PrintBuffers` are the code as it runs, each proved
  against them; `PrintWalk` walks the tree for both printers. `RoundTrip`,
  `Grammar`, `Completeness` and `PrintedSyntax` connect the two with each other
  and with RFC 8259, `Minify` with both; `Acceptance` says of every text whether
  it is read or refused, `Decimal` what a numeral is worth, `Layout` where the
  printed text has white space;
  `Unicode` and `Bits` hold the surrogate and UTF-8 arithmetic, and `Utf16`
  compares the string parser with the decoding of UTF-16. `Links`, `NodeTree`,
  `ChildList` and `Ownership` are the tree operations; `TreeView` is what a
  reader meets in a tree, reference items included, and `HeapRoundTrip` runs
  printers and parser on one tree.
* **FixIt patching** (`ycm/vimsupport.py`, `ycm/client/command_request.py`):
  `TextBuffer` and `FixIt`.
* **Completion overlap** (`ycm/base.py`): `Overlap`.
* **The worker pool** (`ml_thread.c`): `ThreadPool` is the state machine of its
  atomic steps and proves what every run keeps; `PoolThreads` are the mutex
  sections, each proved to be one step.
* **The timer** (`ml_timer.c`): `TimerTable` is the state machine, one step for
  each section under a mutex, so that adds, deletes and completions fall between
  any two steps of a scan, and proves what every run keeps; `TimerRuns` has the
  undisturbed tick and the runs that go wrong; `Timers` are the sections, and the
  functions made of them with the other threads' steps in between.
* **The link plan** (`ml_create.c`): `AddressPlan`.
* **Circular lists** (`list.h`): `ListHeads`.
* **libtoml** (`toml.c`): `TomlEncoder` and `TomlTree`.

`CText`, `Sequences`, `Shapes` and `DivMod` hold what several of these share.

`dafny verify dfyconfig.toml` checks everything.

## What the proofs show about the code

* A printed number can be misread only if the text behind it goes on like a
  number; everything else round-trips in front of any text.
* `\u0000`, lone surrogates and a high surrogate followed by an escape that is
  not its low half are dropped by the string parser, in the last case together
  with that second escape. `ParsedIsUtf8Iff` says that nothing else is lost.
* A number followed by a lone `e` swallows it; `0` followed by `0` ends between
  the two.
* Beyond RFC 8259 the parser takes just what `Accepted` in `Grammar` lists:
  control bytes as white space and in strings, any letter behind a backslash, a
  zero in front of other digits, missing digits, and, as the outermost value, a
  string that is still open when the text ends. Any other text is refused, if its
  escapes are whole.
* `cJSON_Minify` starts looking for the end of a block comment on its opening
  star, so that `/*/` is a whole comment. A text whose comment or string is not
  closed leads it past the terminator; such texts are outside its contract.
* The FixIt loop does not bring `last_line` up to date when a chunk begins on
  the line its predecessor ended on. If that chunk spans lines and the next one
  begins where it ended, the next one is applied without the shift it needs.
  `InPlaceIffSettled` gives the exact condition, on the chunks alone. (The
  comment above `ReplaceChunk` calls the range inclusive; the code, followed
  here, does not replace the end column.)
* A reference item shares the list of children without any account of it. An edit
  through it at index 0, or an add to an empty list, moves its own pointer only:
  the item that owns the list then points at a node that is detached, or freed.
* `cJSON_AddItemToObject` frees an old name that is flagged constant, and leaves
  the flag standing, so that the new name is never freed. `cJSON_Duplicate`
  copies the flag with the name, with the same effect.
* With two or more members, the pool sends member 0 the first node and never
  another one.
* A wake-up that no add has caused, which POSIX allows, ends the loop of the
  master, since it takes the empty list for an error: nothing added from then on
  is run. A member goes on, but its `iCount` is one less each time.
* A scan of the timer table stops after as many live slots as the counter said
  there were when it began. A timer that is added meanwhile, in a slot the scan
  has still to come to, takes the place of a later one, which then misses that
  tick. `RoomKeptIff` says exactly which steps can do that.
* `iTimerCnt` is exact, but for unfinished adds and deletes, as long as every
  delete and every completion meets a live slot and every add one that is not.
  A one-shot timer that falls due twice before it is handled leaves it too low,
  and the scan then misses a timer; two adds that find the same slot lose one
  of the timers and leave it too high.
* `_json_string_encode` writes control bytes other than `\b`, `\f`, `\n`, `\r`
  and `\t` as they are, which RFC 8259 forbids; cJSON reads them all the same.
* Adding 2^24 to the start address repeats an address after 256 steps.

## Model

| member | source | states |
|---|---|---|
| RoundTrip.PrintThenParse | src/test_lib/test_lib/lib/cJSON/cJSON/cJSON.c:357-658 | for every printable tree, every depth and both modes, parsing the rendering in front of any rest gives back the tree and stops exactly at the rest, if and only if the tree is not a number that the rest continues |
| RoundTrip.NumberRoundTrip | src/test_lib/test_lib/lib/cJSON/cJSON/cJSON.c:96-175 | a 32-bit integer printed with `%d` is read back and left at the rest, if and only if the rest does not go on with a digit, a fraction or an exponent mark |
| RoundTrip.EscapeRoundTrip | src/test_lib/test_lib/lib/cJSON/cJSON/cJSON.c:204-243 | the string parser reads every escaped byte as that byte and goes on behind it |
| RoundTrip.QuotedRoundTrip | src/test_lib/test_lib/lib/cJSON/cJSON/cJSON.c:192-306 | a NUL-free string, quoted and escaped, parses to itself in front of any rest |
| RoundTrip.PrintedParses | src/test_lib/test_lib/lib/cJSON/cJSON/cJSON.c:320-658 | a printed tree is accepted to its end with the tree as value |
| RoundTrip.PrintAfterParse | src/test_lib/test_lib/lib/cJSON/cJSON/cJSON.c:320-658 | what was parsed, if its numbers are 32-bit integers, prints to a text that parses to the same value and prints the same |
| RoundTrip.ValueNulFree | src/test_lib/test_lib/lib/cJSON/cJSON/cJSON.c:203-244 | no parsed string or name contains a terminator: a parsed tree of 32-bit integers is printable |
| PrintedSyntax.PrintedIsJson | src/test_lib/test_lib/lib/cJSON/cJSON/cJSON.c:372-658 | every rendering is a text of the grammar of RFC 8259, sections 2 to 7, that denotes the printed value |
| PrintedSyntax.MinifyUnformats | src/test_lib/test_lib/lib/cJSON/cJSON/cJSON.c:735-750 | minifying what `cJSON_Print` writes gives what `cJSON_PrintUnformatted` writes |
| PrintedSyntax.ShortestEscape | src/test_lib/test_lib/lib/cJSON/cJSON/cJSON.c:252-306 | of all JSON texts of a string, by RFC 8259, the printer writes a shortest one |
| Layout.PrintedIsLaidOut | src/test_lib/test_lib/lib/cJSON/cJSON/cJSON.c:372-658 | said of the bytes of the printed text alone, with a stack of open brackets: behind `{`, and behind `,` in an object, a new line with one TAB for each open bracket; one TAB behind `:`; one SPACE behind `,` in an array; `}` on its own line, one TAB less, two for an empty object; no white space anywhere else outside strings, and none at all when unformatted |
| Completeness.AcceptsEveryJsonText | src/test_lib/test_lib/lib/cJSON/cJSON/cJSON.c:320-337 | every text of the grammar of RFC 8259, sections 2 to 7, is accepted with `require_null_terminated`, and its value is the one the grammar gives it |
| Completeness.TreeParses | src/test_lib/test_lib/lib/cJSON/cJSON/cJSON.c:357-369 | in front of any rest, `parse_value` consumes exactly the text of an accepted tree and computes its value, if and only if the value is not a number that the rest continues; the trees of RFC 8259 are among them |
| Completeness.ItemsParse | src/test_lib/test_lib/lib/cJSON/cJSON/cJSON.c:406-431 | the element loop of `parse_array` consumes exactly the elements and the bracket |
| Completeness.FieldsParse | src/test_lib/test_lib/lib/cJSON/cJSON/cJSON.c:514-547 | the member loop of `parse_object` consumes exactly the members and the brace |
| Completeness.StringParses | src/test_lib/test_lib/lib/cJSON/cJSON/cJSON.c:192-249 | `parse_string` decodes every string it accepts, raw control bytes, any escaped letter, lone surrogates and U+0000 included, and stops behind its quote |
| Completeness.NumeralParses | src/test_lib/test_lib/lib/cJSON/cJSON/cJSON.c:96-115 | in front of any rest, `parse_number` computes the value of every numeral it accepts, those of RFC 8259 among them, as an exact real given by the place of each digit and a power of ten, and stops at the rest, unless the rest goes on with a digit (two zeros excepted), a fraction or an exponent mark where the numeral has none yet; then it reads on |
| Completeness.NumeralScaled | src/test_lib/test_lib/lib/cJSON/cJSON/cJSON.c:102-109 | collecting all digits in one integer and scaling it once by `pow(10.0, ...)` gives the sum of the digits by their places, times or divided by the power of the exponent |
| Decimal.ScaledShift | src/test_lib/test_lib/lib/cJSON/cJSON/cJSON.c:109 | `n * 10^e * 10^k == n * 10^(e + k)` for every integer exponent `e` of the parser and every natural power `10^k` |
| Decimal.AllDigitsValue | src/test_lib/test_lib/lib/cJSON/cJSON/cJSON.c:102-103 | the digits of whole part and fraction as one integer, divided by ten for each digit of the fraction, are the whole part and the sum of each digit of the fraction divided by the power of ten of its place |
| Acceptance.ParsesIff | src/test_lib/test_lib/lib/cJSON/cJSON/cJSON.c:357-369 | for every text: a value is read and a rest left, if and only if the text is that of an accepted tree in front of this rest, which does not continue it, and the tree denotes the value; a grammar of its own says what is accepted: every control byte as white space, in strings raw control bytes and any letter behind a backslash, a zero in front of other digits, missing digits behind a minus and in an exponent, and a string that is open when the text ends |
| Acceptance.RefusesIff | src/test_lib/test_lib/lib/cJSON/cJSON/cJSON.c:331-368 | a text without a broken escape is refused, if and only if it is that of no accepted tree |
| Acceptance.TerminatedIff | src/test_lib/test_lib/lib/cJSON/cJSON/cJSON.c:320-337 | with `require_null_terminated`, a text passes with this value, if and only if all of it, up to the terminator, is an accepted document that denotes the value |
| Acceptance.TerminatedRefusesIff | src/test_lib/test_lib/lib/cJSON/cJSON/cJSON.c:320-337 | and a text without a broken escape is refused, if and only if it is no accepted document |
| Acceptance.FirstValueIff | src/test_lib/test_lib/lib/cJSON/cJSON/cJSON.c:320-337 | without it, value and end are these, if and only if the text begins with white space and an accepted tree that denotes the value and ends there |
| Acceptance.FirstRefusesIff | src/test_lib/test_lib/lib/cJSON/cJSON/cJSON.c:320-337 | and a text without a broken escape is refused, if and only if it does not begin like that |
| Acceptance.ValueSound | src/test_lib/test_lib/lib/cJSON/cJSON/cJSON.c:203-244 | a text in which no backslash stands in front of the terminator and every `\u` has its four hex digits never leads the parser past its end, whatever else is wrong with it |
| Acceptance.ReadChars | src/test_lib/test_lib/lib/cJSON/cJSON/cJSON.c:204-244 | whatever the decoder reads up to a quote or the end of the text is a row of accepted characters |
| Acceptance.ReadNumeral | src/test_lib/test_lib/lib/cJSON/cJSON/cJSON.c:96-115 | whatever `parse_number` reads is an accepted numeral, and it stops where nothing continues that |
| Parser.ParseValue | src/test_lib/test_lib/lib/cJSON/cJSON/cJSON.c:357-369 | a value consumes at least one byte; the remaining text decreases strictly through the mutual recursion |
| Parser.ParseMembers | src/test_lib/test_lib/lib/cJSON/cJSON/cJSON.c:514-547 | the member loop consumes input in every round |
| Utf16.ParsedIsUtf8Iff | src/test_lib/test_lib/lib/cJSON/cJSON/cJSON.c:203-244 | a string is parsed to the UTF-8 (section 3 of RFC 3629) of the characters that section 7 of RFC 8259 and section 2.2 of RFC 2781 see in it, if and only if each of its surrogates is paired and it does not contain U+0000 |
| Utf16.EncodesUnique | src/test_lib/test_lib/lib/cJSON/cJSON/cJSON.c:229-237 | no two byte strings are the UTF-8 of the same characters |
| Completeness.EscapeOfBasicCharacter | src/test_lib/test_lib/lib/cJSON/cJSON/cJSON.c:216-238 | the one-escape form of every scalar value below U+10000, in either letter case, decodes to the bytes of section 3 of RFC 3629 |
| Completeness.EscapeOfSupplementaryCharacter | src/test_lib/test_lib/lib/cJSON/cJSON/cJSON.c:216-238 | the two-escape form of every scalar value from U+10000 on decodes to the bytes of section 3 of RFC 3629 |
| Unicode.WriteUtf8Encodes | src/test_lib/test_lib/lib/cJSON/cJSON/cJSON.c:229-237 | the masks and the fall-through switch write a sequence the table of section 3 of RFC 3629 allows for the character |
| Unicode.EncodingUnique | src/test_lib/test_lib/lib/cJSON/cJSON/cJSON.c:229-237 | that sequence is the only one the table allows |
| Unicode.DecodingUnique | src/test_lib/test_lib/lib/cJSON/cJSON/cJSON.c:229-237 | decoding the written bytes by the table gives back the code point and no other |
| Unicode.CombineIsRfc2781 | src/test_lib/test_lib/lib/cJSON/cJSON/cJSON.c:221-226 | masking, shifting and or-ing two surrogates is the arithmetic of section 2.2 of RFC 2781 |
| Unicode.CombineOfHalves | src/test_lib/test_lib/lib/cJSON/cJSON/cJSON.c:221-226 | the two halves section 2.1 of RFC 2781 gives a code point combine to it |
| Unicode.ParseHex4OfHex4 | src/test_lib/test_lib/lib/cJSON/cJSON/cJSON.c:177-188 | the four digits written for a 16-bit number are read back as it |
| StringParser.CountBounds | src/test_lib/test_lib/lib/cJSON/cJSON/cJSON.c:197-244 | the count of the first pass bounds the bytes the second pass writes |
| StringParser.ParseString | src/test_lib/test_lib/lib/cJSON/cJSON/cJSON.c:192-249 | the two-pass method stays inside its block, sets the item to the decoded string and returns where the specification does |
| StringParser.StoreUtf8 | src/test_lib/test_lib/lib/cJSON/cJSON/cJSON.c:229-237 | storing from the last byte back writes the same bytes, in place, and nothing else |
| Parser.DecodedNulFree | src/test_lib/test_lib/lib/cJSON/cJSON/cJSON.c:203-244 | no escape decodes to a terminator, so that the stored string is the decoded one |
| TreeParser.ParseNumber | src/test_lib/test_lib/lib/cJSON/cJSON/cJSON.c:96-115 | the loops compute the specified value and end |
| TreeParser.ParseValue | src/test_lib/test_lib/lib/cJSON/cJSON/cJSON.c:357-369 | the method builds, out of new nodes, a well-linked tree that stands for the parsed value, and fails exactly when the specification does |
| TreeParser.ParseArray | src/test_lib/test_lib/lib/cJSON/cJSON/cJSON.c:406-431 | the list of children it links is, in order, that of the parsed elements |
| TreeParser.ParseObject | src/test_lib/test_lib/lib/cJSON/cJSON/cJSON.c:514-547 | the list of children it links and names is, in order, that of the parsed members |
| TreeParser.ParseWithOpts | src/test_lib/test_lib/lib/cJSON/cJSON/cJSON.c:320-338 | a root that is in no list, its tree new and separate, its value and end as specified; null exactly on failure |
| AllocPrinter.PrintValue | src/test_lib/test_lib/lib/cJSON/cJSON/cJSON.c:372-403 | the allocating printer writes the text of the value the tree is read as, reference items included |
| AllocPrinter.PrintStringPtr | src/test_lib/test_lib/lib/cJSON/cJSON/cJSON.c:252-306 | the block of `len+3` bytes is filled exactly with the quoted string and its terminator |
| AllocPrinter.ArrayFits | src/test_lib/test_lib/lib/cJSON/cJSON/cJSON.c:474-508 | the length `print_array` adds up holds the text and its terminator, at every depth |
| AllocPrinter.ObjectFits | src/test_lib/test_lib/lib/cJSON/cJSON/cJSON.c:618-655 | the length `print_object` adds up holds the text and its terminator, at every depth |
| AllocPrinter.PrintArray | src/test_lib/test_lib/lib/cJSON/cJSON/cJSON.c:469-511 | composed in that block, the text of the array |
| AllocPrinter.PrintObject | src/test_lib/test_lib/lib/cJSON/cJSON/cJSON.c:608-658 | composed in that block, the text of the object |
| ScalarPrinter.MeasureString | src/test_lib/test_lib/lib/cJSON/cJSON/cJSON.c:256-278 | the first passes count the escaped length exactly and leave a plain string alone |
| ScalarPrinter.IntTextLength | src/test_lib/test_lib/lib/cJSON/cJSON/cJSON.c:157-162 | every 32-bit integer fits the 21 bytes set aside for it |
| ScalarPrinter.TextNulFree | src/test_lib/test_lib/lib/cJSON/cJSON/cJSON.c:138-144 | no rendering contains a terminator, so that `strlen` finds its end |
| BufferedPrinter.PrintValue | src/test_lib/test_lib/lib/cJSON/cJSON/cJSON.c:372-387 | behind whatever the buffer holds, the buffered printer leaves the text of the value the tree is read as, reference items included, and its terminator, across all reallocations, with the offset somewhere inside the text |
| BufferedPrinter.Advance | src/test_lib/test_lib/lib/cJSON/cJSON/cJSON.c:138-144 | from such an offset `update` finds the end of the text |
| BufferedPrinter.PrintArray | src/test_lib/test_lib/lib/cJSON/cJSON/cJSON.c:453-468 | the same for arrays |
| BufferedPrinter.PrintObject | src/test_lib/test_lib/lib/cJSON/cJSON/cJSON.c:570-607 | the same for objects |
| BufferedPrinter.PrintBuffered | src/test_lib/test_lib/lib/cJSON/cJSON/cJSON.c:345-353 | from any first size, the text of `cJSON_Print` or `cJSON_PrintUnformatted` |
| HeapRoundTrip.PrintBothWays | src/test_lib/test_lib/lib/cJSON/cJSON/cJSON.c:342-353 | the two printers write the same text of one tree |
| HeapRoundTrip.PrintAndParse | src/test_lib/test_lib/lib/cJSON/cJSON/cJSON.c:320-353 | printing a linked tree and parsing the text builds a new tree for the same value |
| PrintBuffers.Pow2GtIsLeast | src/test_lib/test_lib/lib/cJSON/cJSON/cJSON.c:117 | `pow2gt(x)` is the least power of two that is at least `x`, for 1 <= x <= 2^30 |
| PrintBuffers.PrintBuffer.Ensure | src/test_lib/test_lib/lib/cJSON/cJSON/cJSON.c:121-136 | all earlier bytes stay, there is room for `needed`, and all bytes copied so far are fewer than the first length plus the present one |
| PrintBuffers.PrintBuffer.Update | src/test_lib/test_lib/lib/cJSON/cJSON/cJSON.c:138-144 | the end of the terminated text the offset points into |
| Bits.SmearDoubles | src/test_lib/test_lib/lib/cJSON/cJSON/cJSON.c:117 | or-ing a number with itself shifted by the length of its run of leading ones doubles the run |
| Minify.MinifyInPlace | src/test_lib/test_lib/lib/cJSON/cJSON/cJSON.c:735-750 | the in-place loop leaves the minified text and its terminator, and does not touch what lies behind the text |
| Minify.MinifyRound | src/test_lib/test_lib/lib/cJSON/cJSON/cJSON.c:738-748 | a round of the loop advances the read position, keeps the write position at or before it, and changes no byte that is still to be read |
| Minify.MinifiedIsStripped | src/test_lib/test_lib/lib/cJSON/cJSON/cJSON.c:735-750 | on every JSON text, with or without comments, the result is the text of the same syntax tree with every gap empty |
| Minify.MinifyKeepsMeaning | src/test_lib/test_lib/lib/cJSON/cJSON/cJSON.c:735-750 | the result is accepted to its end with the value of the original, and minifying it again changes nothing |
| Minify.MinifyThenParse | src/test_lib/test_lib/lib/cJSON/cJSON/cJSON.c:735-750 | parsing the minified text gives what parsing the original gives |
| Minify.StringKept | src/test_lib/test_lib/lib/cJSON/cJSON/cJSON.c:747 | string literals are kept byte for byte |
| ChildList.GetArrayItem | src/test_lib/test_lib/lib/cJSON/cJSON/cJSON.c:662 | on the children of any item, reference or not: the child at the index, null past the end, the first one for a negative index |
| ChildList.AddItemToArray | src/test_lib/test_lib/lib/cJSON/cJSON/cJSON.c:671 | the children become the old ones and the new one at the end, for the root of the tree and for a reference item that shares its children; the tree stays well linked, if and only if the owner is its root or the list was not empty |
| ChildList.InsertItemInArray | src/test_lib/test_lib/lib/cJSON/cJSON/cJSON.c:684-685 | insertion at the index, or at the end past it, by the root or by a reference item that shares the children; the tree stays well linked, with `next` and `prev` mirror images, if and only if the owner is its root or the index is not 0 |
| ChildList.DetachItemFromArray | src/test_lib/test_lib/lib/cJSON/cJSON/cJSON.c:677-678 | removal at the index, by the root or by a reference item that shares the children; the detached tree is whole and in no list, and the rest stays a well-linked tree, if and only if the owner is its root or the index is not 0 |
| ChildList.FindByName | src/test_lib/test_lib/lib/cJSON/cJSON/cJSON.c:663 | on the children of any item, reference or not: the first child whose name has the length of the given one and, at each place, the same byte or the other case of the same letter of A to Z |
| ChildList.StrCaseEqual | src/test_lib/test_lib/lib/cJSON/cJSON/cJSON.c:39-44 | the loop over `tolower` accepts two names, if and only if they are of one length and at each place the bytes are equal, or differ by 32 with the smaller one in 65 to 90 |
| ChildList.SameTextIsEquivalence | src/test_lib/test_lib/lib/cJSON/cJSON/cJSON.c:39-44 | names that differ in letter case only fall into classes: the relation is reflexive, symmetric and transitive |
| ChildList.DetachItemFromObject | src/test_lib/test_lib/lib/cJSON/cJSON/cJSON.c:680 | removes exactly the child `cJSON_GetObjectItem` finds, with the same condition |
| Ownership.Delete | src/test_lib/test_lib/lib/cJSON/cJSON/cJSON.c:81-93 | frees every node a chain of trees owns and the strings of these nodes, each once, and nothing else: no node that is only reachable through a reference item, no text of a reference item, no name flagged constant |
| Ownership.NothingLeftIff | src/test_lib/test_lib/lib/cJSON/cJSON/cJSON.c:81-93 | such a deletion leaves no string of the nodes behind, if and only if the strings they have on the heap are just those it frees |
| Ownership.ReplaceItemInArray | src/test_lib/test_lib/lib/cJSON/cJSON/cJSON.c:686-688 | exchanges the child and frees exactly the subtree it took out, with its strings; by a reference item at index 0, and only then, the root of the tree keeps a pointer to a freed node |
| Ownership.DeleteItemFromArray | src/test_lib/test_lib/lib/cJSON/cJSON/cJSON.c:679 | frees exactly the subtree at the index, with its strings; by a reference item at index 0, and only then, the root keeps a pointer to a freed node |
| TreeView.OneReading | src/test_lib/test_lib/lib/cJSON/cJSON/cJSON.c:372-403 | following `child` and `next`, a node is read as one value only, whoever owns what is met |
| TreeView.TreeReads | src/test_lib/test_lib/lib/cJSON/cJSON/cJSON.c:372-403 | a well-linked tree is read as the value it stands for |
| Ownership.CreateReference | src/test_lib/test_lib/lib/cJSON/cJSON/cJSON.c:668 | a new node that shares the children of the item, is read as the same value, owns none of them and has its flag for constant names |
| Ownership.AddItemReferenceToArray | src/test_lib/test_lib/lib/cJSON/cJSON/cJSON.c:668-674 | the list owns one node more and nothing of the item it refers to, and is read as its old values and the value of the item at the end; by a reference item to an empty list, and only then, the root of the tree misses it |
| Ownership.AddItemToObject | src/test_lib/test_lib/lib/cJSON/cJSON/cJSON.c:672 | the item, under its new name, comes last; of an item whose strings are accounted for, something not on the heap is freed, if and only if it had a name flagged constant, and the new name is freed by a later deletion, if and only if the item is not so flagged |
| Ownership.AddItemToObjectCS | src/test_lib/test_lib/lib/cJSON/cJSON/cJSON.c:673 | the same with a constant name: nothing else is freed and the strings stay accounted for |
| Ownership.Duplicate | src/test_lib/test_lib/lib/cJSON/cJSON/cJSON.c:708-733 | with recursion, a tree of new nodes, none a reference item, that stands for the value read of the source, which may hold reference items or be one, and that has a name flagged constant, if and only if the source has; without, the node alone |
| Ownership.CopyAccountedIff | src/test_lib/test_lib/lib/cJSON/cJSON/cJSON.c:717-719 | a deletion of the copy leaves none of its strings behind, if and only if no name in it is flagged constant |
| FixIt.VimBuffer.ReplaceChunk | src/vim_config/vim/bundle/YouCompleteMe/python/ycm/vimsupport.py:471-505 | the buffer becomes the text up to the start, the replacement and the text from the end on, joined; the two deltas |
| FixIt.HandleFixit | src/vim_config/vim/bundle/YouCompleteMe/python/ycm/client/command_request.py:98-117 | the loop applies the chunks in order with the accumulated deltas |
| FixIt.InPlaceIffSettled | src/vim_config/vim/bundle/YouCompleteMe/python/ycm/client/command_request.py:98-117 | every chunk is applied at the place its range has moved to, if and only if no chunk begins on the line where its predecessor ended after that one began on the line of its own predecessor, ran over several lines and changed the length of its last line |
| FixIt.SequentialIsSimultaneous | src/vim_config/vim/bundle/YouCompleteMe/python/ycm/client/command_request.py:98-117 | on such lists, in-order patching gives the text with all ranges replaced at once in original coordinates |
| FixIt.NoRunOnIsSettled | src/vim_config/vim/bundle/YouCompleteMe/python/ycm/client/command_request.py:98-117 | it is enough that no chunk over several lines begins on the line where the one before it ended |
| FixIt.UnsettledGoesWrong | src/vim_config/vim/bundle/YouCompleteMe/python/ycm/client/command_request.py:98-117 | three chunks outside the condition, on which the two texts differ |
| FixIt.UnsettledMayAgree | src/vim_config/vim/bundle/YouCompleteMe/python/ycm/client/command_request.py:98-117 | three chunks outside the condition whose misplaced one does no harm on any text |
| FixIt.LastInsertionIff | src/vim_config/vim/bundle/YouCompleteMe/python/ycm/client/command_request.py:98-117 | behind a settled list, an insertion of text that shows in its line, because its first letter does not occur there or it runs over several lines: the two texts are the same, if and only if the column the loop uses, as the slice cuts it, is the one the place has moved to |
| FixIt.UnsettledInsertionShows | src/vim_config/vim/bundle/YouCompleteMe/python/ycm/client/command_request.py:98-117 | if such an insertion alone puts the list outside the condition and its column is inside the line, the two texts differ |
| FixIt.EditedInPlace | src/vim_config/vim/bundle/YouCompleteMe/python/ycm/vimsupport.py:471-505 | applied at its moved place, one chunk replaces just its own range |
| ThreadPool.RunKeepsInv | src/lib/ml_lib/ml_thread.c:161-333 | over every run: added = dispatched, held by the master, in the group list; each member has executed, holds and queues exactly its share in order; `iCount` is the length of its list less the wake-ups that found it empty; no thread waits beside a node |
| ThreadPool.NothingLostNothingTwice | src/lib/ml_lib/ml_thread.c:161-333 | over every run each added node is in one place or executed, as often as it was added |
| ThreadPool.RunsInArrivalOrder | src/lib/ml_lib/ml_thread.c:210-267 | over every run a member has executed a beginning of its share of the arrivals, in arrival order |
| ThreadPool.ShareIndex | src/lib/ml_lib/ml_thread.c:313-330 | the share of member j >= 1 of n members is the arrivals j, j+(n-1), j+2(n-1), ... |
| ThreadPool.FirstMemberStarves | src/lib/ml_lib/ml_thread.c:313-330 | with two or more members, member 0 executes at most the first arrival, ever |
| ThreadPool.OneMemberIsFifo | src/lib/ml_lib/ml_thread.c:161-333 | with one member, nodes execute in arrival order |
| ThreadPool.NextDest | src/lib/ml_lib/ml_thread.c:323-330 | the cursor arithmetic moves from the member of one node to the member of the next |
| ThreadPool.MasterStopsIff | src/lib/ml_lib/ml_thread.c:284-300 | over every run the master has stopped, if and only if it took its exit, or was once woken beside an empty list |
| ThreadPool.MemberStopsIff | src/lib/ml_lib/ml_thread.c:122-145 | over every run a member has stopped, if and only if it took its exit |
| ThreadPool.MasterHandsOut | src/lib/ml_lib/ml_thread.c:178-333 | from every reachable state, a master that has not stopped can go on, with no exit and no further add, so that all nodes in the group list are dispatched in order, in at most three steps a node and two more; whether its waits all end by the broadcast or all by time-out |
| ThreadPool.MemberRunsAll | src/lib/ml_lib/ml_thread.c:110-267 | the same for a member that has not stopped and the nodes in its list, which it executes in order |
| ThreadPool.EveryNodeIsRun | src/lib/ml_lib/ml_thread.c:110-333 | as long as no thread has stopped, every run can go on, with no exit and no further add, so that each member has executed exactly its share of all nodes added, in arrival order |
| ThreadPool.MasterCanStop | src/lib/ml_lib/ml_thread.c:284-300 | from every reachable state the master can come to see the exit flag, after it has handed out what waits |
| ThreadPool.MemberCanStop | src/lib/ml_lib/ml_thread.c:122-145 | the same for a member, after it has executed what waits |
| ThreadPool.SpuriousWakeEndsPool | src/lib/ml_lib/ml_thread.c:189-204 | over every run, once the master is woken beside an empty list, no node is dispatched any more, whatever is added later |
| PoolThreads.Group.DispatchNode | src/lib/ml_lib/ml_thread.c:313-330 | the dispatch loop is the dispatch step and sends the node to the member the arrival number gives |
| PoolThreads.Group.AddPoolNode | src/lib/ml_lib/ml_thread.c:440-453 | one atomic add and broadcast |
| PoolThreads.Group.GetGroupNode | src/lib/ml_lib/ml_thread.c:178-207 | takes the first node or starts to wait |
| PoolThreads.Group.EndGroupWait | src/lib/ml_lib/ml_thread.c:191-204 | the end of the wait: ready again by time-out, else with the first node, or stopped if there is none |
| PoolThreads.Group.GetMemberNode | src/lib/ml_lib/ml_thread.c:231-267 | takes the first node of the member or starts to wait |
| PoolThreads.Group.EndMemberWait | src/lib/ml_lib/ml_thread.c:248-262 | the end of a member's wait: ready again by time-out or if there is no node, else with the first node |
| PoolThreads.Group.ExecuteNode | src/lib/ml_lib/ml_thread.c:110-158 | the node taken is executed and no other |
| Overlap.OverlapLength | src/vim_config/vim/bundle/YouCompleteMe/python/ycm/base.py:139-170 | the greatest k such that the last k characters of the left string are the first k of the right one; the jumping loop ends |
| Overlap.SearchOverlap | src/vim_config/vim/bundle/YouCompleteMe/python/ycm/base.py:158-170 | no jump passes over a longer overlap |
| Overlap.NewCandidateInsertionText | src/vim_config/vim/bundle/YouCompleteMe/python/ycm/base.py:108-112 | of all beginnings of the candidate that the text behind the cursor completes to the whole candidate, the shortest |
| Overlap.AdjustCandidateInsertionText | src/vim_config/vim/bundle/YouCompleteMe/python/ycm/base.py:91-136 | every candidate kept gets that word and its old text as `abbr`; other entries stay |
| TomlEncoder.JsonStringEncode | src/lib/toml_lib/libtoml-master/toml.c:206-284 | the second pass fills exactly the length the first one counted |
| TomlEncoder.ParserUndoesEncoder | src/test_lib/test_lib/lib/cJSON/cJSON/cJSON.c:192-249 | for every NUL-free string, the string parser of cJSON applied to the quoted encoding returns the string |
| TomlEncoder.EncodesJsonIff | src/lib/toml_lib/libtoml-master/toml.c:206-284 | the encoding is the text of a JSON string by section 7 of RFC 8259, one that denotes the string, if and only if the string has no control bytes but the five with a letter |
| TomlTree.Process | src/lib/toml_lib/libtoml-master/toml.c:154-186 | the callback is called on the nodes in the specified order |
| TomlTree.VisitsAll | src/lib/toml_lib/libtoml-master/toml.c:154-186 | either order visits every node exactly once |
| TomlTree.NodeAtItsEnd | src/lib/toml_lib/libtoml-master/toml.c:154-186 | a walk visits a node before, a dive after all nodes below it |
| TomlTree.ChildrenInTurn | src/lib/toml_lib/libtoml-master/toml.c:163-178 | either order is done with one child and all nodes below it before it comes to the next child |
| TomlTree.FreeItems | src/lib/toml_lib/libtoml-master/toml.c:411-445 | over the linked ring: the next link is read while its item is live, each item is unlinked and then freed, once, and the strings of the node are freed |
| TomlTree.Heap.ListDel | src/test_lib/test_lib/lib/test_client/test_client/list.h:78-95 | one item is taken out of the ring; only live items are read and written |
| TomlTree.DiveFree | src/lib/toml_lib/libtoml-master/toml.c:154-186 | the freeing walk calls its callback on live nodes only and frees every item below the root, and every string, once |
| TomlTree.TomlFree | src/lib/toml_lib/libtoml-master/toml.c:449-455 | every node, name and string value of the tree is freed, each exactly once, and nothing else |
| ListHeads.AddBetween | src/test_lib/test_lib/lib/test_client/test_client/list.h:34-42 | one ring with the entry between two neighbours |
| ListHeads.Unlink | src/test_lib/test_lib/lib/test_client/test_client/list.h:78-82 | one ring without the entry |
| ListHeads.ListAdd | src/test_lib/test_lib/lib/test_client/test_client/list.h:52-55 | the entry becomes the first |
| ListHeads.ListAddTail | src/test_lib/test_lib/lib/test_client/test_client/list.h:66-69 | the entry becomes the last |
| ListHeads.ListDel | src/test_lib/test_lib/lib/test_client/test_client/list.h:90-95 | the entry is gone and its links are poisoned |
| ListHeads.ListDelInit | src/test_lib/test_lib/lib/test_client/test_client/list.h:124-128 | the entry is gone and a ring of its own |
| ListHeads.ListReplace | src/test_lib/test_lib/lib/test_client/test_client/list.h:104-111 | the new node stands where the old one stood, entry or head |
| ListHeads.ListReplaceInit | src/test_lib/test_lib/lib/test_client/test_client/list.h:113-118 | the same, and the old node is a ring of its own |
| ListHeads.ListMove | src/test_lib/test_lib/lib/test_client/test_client/list.h:135-139 | inside one list, the entry becomes the first |
| ListHeads.ListMoveTail | src/test_lib/test_lib/lib/test_client/test_client/list.h:146-151 | inside one list, the entry becomes the last |
| ListHeads.ListMoveAcross | src/test_lib/test_lib/lib/test_client/test_client/list.h:135-139 | from one list to the front of another, both whole |
| ListHeads.ListMoveTailAcross | src/test_lib/test_lib/lib/test_client/test_client/list.h:146-151 | from one list to the end of another, both whole |
| ListHeads.ListRotateLeft | src/test_lib/test_lib/lib/test_client/test_client/list.h:196-205 | the first entry becomes the last |
| ListHeads.ListIsSingular | src/test_lib/test_lib/lib/test_client/test_client/list.h:211-214 | true exactly for one entry |
| ListHeads.ListEmpty | src/test_lib/test_lib/lib/test_client/test_client/list.h:168-171 | true exactly for no entry |
| ListHeads.ListIsLast | src/test_lib/test_lib/lib/test_client/test_client/list.h:158-162 | true exactly for the last entry |
| ListHeads.ListCutPosition | src/test_lib/test_lib/lib/test_client/test_client/list.h:242-254 | the entries up to the given one go to the new list, the others stay; nothing happens on an empty list |
| ListHeads.ListSplice | src/test_lib/test_lib/lib/test_client/test_client/list.h:275-310 | the entries of one list come in front of those of the other; with `init` the source is empty |
| ListHeads.ListSpliceTail | src/test_lib/test_lib/lib/test_client/test_client/list.h:287-327 | the entries of one list come behind those of the other; with `init` the source is empty |
| ListHeads.CutAndRestore | src/test_lib/test_lib/lib/test_client/test_client/list.h:242-310 | a cut spliced back restores the list |
| TimerTable.PassedOverIff | src/lib/ml_lib/ml_timer.c:57-84 | over every run of the sections of all threads, at the end of a scan: a slot was visited, if and only if the live slots the scan met below it were fewer than the counter it had read at its start |
| TimerTable.NoneMissedIffRoom | src/lib/ml_lib/ml_timer.c:62 | a scan that ends has passed over no live slot, if and only if the live slots still ahead fitted into what was left of the counter |
| TimerTable.RoomKeptIff | src/lib/ml_lib/ml_timer.c:57-84 | a step takes that room away, if and only if it begins a scan with a counter below the number of live slots, or sets up a timer in a slot the scan has still to come to when there is no room for one more |
| TimerRuns.MissedByAdd | src/lib/ml_lib/ml_timer.c:57-84 | a run in which a timer added below another one during the scan makes the scan end before the other, which is due, is advanced or queued |
| TimerTable.CountKeptIff | src/lib/ml_lib/ml_timer.c:161-184 | but for adds and deletes between their two sections, the counter stays equal to the number of live slots in a step, if and only if the step takes down a live slot or sets up one that is not |
| TimerRuns.BothFoundIt | src/lib/ml_lib/ml_timer.c:323-346 | two adds that find the same slot free before either writes lose one timer and leave the counter too high |
| TimerRuns.HandledTwice | src/lib/ml_lib/ml_timer.c:161-184 | a one-shot timer due twice before it is handled leaves the counter one short; the next timer is not scanned |
| TimerTable.StepKeepsShape | src/lib/ml_lib/ml_timer.c:57-84 | live slots keep 0 <= iTick < iMSecond in every step |
| TimerTable.CalmRunKeepsInv | src/lib/ml_lib/ml_timer.c:47-85 | over every run in which no slot in use is set up, no queued timer is deleted, no one-shot timer falls due again before it was handled, and the scans keep their room: the counter is exact, and a scan that ends has passed over no live slot |
| TimerTable.StartIsOk | src/lib/ml_lib/ml_timer.c:215-226 | such runs start from the empty table |
| TimerTable.ConstantTimerPeriod | src/lib/ml_lib/ml_timer.c:57-84 | over such a run of all threads, a constant timer of period m that has had k turns is queued (k+d)/m - k/m times, rounded down, in its next d turns, which between scans are the ticks |
| TimerTable.FirstQueuedAtPeriod | src/lib/ml_lib/ml_timer.c:57-84 | over such a run, a timer of period m, one-shot or constant, is queued for the first time at its m-th turn: not before, and for sure by then |
| TimerTable.QueueConserved | src/lib/ml_lib/ml_timer.c:57-187 | over every run of all threads, calm or not, what was ever queued is in the queue or was handled, as often as it was queued |
| Timers.CalmTick | src/lib/ml_lib/ml_timer.c:47-105 | one tick with the steps of other threads in it, all of them calm, is one turn of a constant timer, and queues it exactly at every m-th turn |
| TimerRuns.EarlyExitIsFullScan | src/lib/ml_lib/ml_timer.c:57-84 | a tick nobody disturbs advances and queues what a full scan does, if and only if the counter is not below the number of live slots or none is live |
| Timers.Timer.CheckTimer | src/lib/ml_lib/ml_timer.c:47-105 | with the steps `others(k)` of the other threads before its k-th section, the run is exactly those steps with count, begin, one scan step for each round and end between them; the rounds are those in which the loop condition holds; with no such steps, it is the tick of the table |
| Timers.Timer.IncreaseCount | src/lib/ml_lib/ml_timer.c:97-105 | the count step |
| Timers.Timer.BeginScan | src/lib/ml_lib/ml_timer.c:57-60 | the step that reads the counter |
| Timers.Timer.CheckSlot | src/lib/ml_lib/ml_timer.c:64-83 | the scan step on one slot |
| Timers.Timer.AddTimer | src/lib/ml_lib/ml_timer.c:303-350 | with the steps `others(k)` of the other threads before each look and each section, the run is exactly those steps and the two add steps, or those before the looks on failure; the slot is the first one that was free when it was looked at |
| Timers.Timer.DelTimer | src/lib/ml_lib/ml_timer.c:368-388 | the two delete steps with given steps of other threads before each; nothing for an id out of range |
| Timers.Timer.HandleTimer | src/lib/ml_lib/ml_timer.c:160-187 | the completion step on any slot in the queue |
| Timers.Timer.DecreaseCount | src/lib/ml_lib/ml_timer.c:87-95 | the step that counts a timer down |
| AddressPlan.StartCreateLink | src/lib/ml_lib/ml_create.c:61-122 | the links are a beginning of the plan, ids from 0 on; the whole of it, min(max(total,1), addresses times blocks), unless the exit flag cuts it |
| AddressPlan.DistinctIffWithin256 | src/lib/ml_lib/ml_create.c:78-116 | under 32-bit wrap-around no two of the first n links share a port of an address, if and only if they take at most 256 addresses |
| AddressPlan.PortsInRange | src/lib/ml_lib/ml_create.c:78-116 | every block of ports lies inside the port range |
| AddressPlan.BlocksApart | src/lib/ml_lib/ml_create.c:78-116 | two port blocks meet exactly when they are the same block |
| AddressPlan.AddressesRound | src/lib/ml_lib/ml_create.c:84-88 | adding 2^24 comes round after 256 addresses and not before |

## Left out

- Floating point: numbers are exact reals. `%f` and `%e` output, the comparison
  with DBL_EPSILON, overflow of `valueint` and of the `int subscale` are not
  modelled; the printers are proved on 32-bit integers, the `%d` path.
- Malformed text on which the C code reads past the terminator or
  desynchronises its two passes: a backslash in front of the terminator, `\u`
  without four hex digits (`Undef` in `Parser`), and texts on which
  `cJSON_Minify` overruns.
- Minify.MinifyInPlace: not stated for a text whose last comment or string is
  open, on which the C loop reads and writes past the terminator.
- Strings with NUL bytes, null strings and null names; allocation failure,
  custom hooks and the global error pointer.
- The bytes of `valuestring` and `string` are values; that they are blocks on the
  heap is kept by node, for deletion, naming and copying, not for parsing. The
  buffers the printers and `parse_string` write to are arrays; the returned C
  string is read off as a value.
- What `cJSON_Delete` frees after a failed parse: the parser returns null and its
  nodes are unreachable.
- Reading a tree whose links form a ring, on which the recursive functions of
  the code do not end either, and editing a list that its own items refer to.
- BufferedPrinter.PrintBuffered: for texts up to 2^30 - 21 bytes, where `pow2gt`
  stays inside a signed 32-bit int.
- The create functions, which only set fields of new nodes; adding a reference to
  an object, which is `AddItemToObject` of what `CreateReference` makes; delete and
  replace by name, which are those by index at the index of the first item of that
  name (replacing sets the name of the new item without freeing an old one).
- The string-keyed sort of the FixIt chunks: chunks arrive in ascending order.
  `splitlines` is applied before the model: a chunk holds its replacement as
  lines.
- FixIt.SequentialIsSimultaneous: one direction; a chunk at a wrong position can
  leave every text as it should be (`UnsettledMayAgree`). The exact condition is
  stated on the positions, and on the texts for an insertion that comes last.
- FixIt.VimBuffer.ReplaceChunk: the lines of the range are lines of the buffer.
  Past its end Python would raise an IndexError, and a negative line would be
  counted from its end; columns may be anything, with the meaning Python's
  slices give them.
- Candidates of other types than `dict` and `str` are one case, which the loop
  passes over; a `dict` without `word`, which raises a KeyError, is outside the
  contract; `vimsupport.TextAfterCursor` is a parameter.
- Thread creation, stack sizes, clocks and `group_func`, which
  every pool leaves null. What `execute_func` does with a node.
- `ml_uninit_thread_group`, which frees what is left in the lists.
- In the timer, the queue holds slot numbers: the scan stores an index which the
  handler takes for a pointer. The user callbacks, and periods below one, which
  never fall due. That the slot an add writes to was free at some moment before:
  as a step of another thread, an add may write any slot.
- AddressPlan.StartCreateLink: for a positive block size and an end port not
  below the start port; the code would divide by zero or wrap its end port.
- In the link plan, the pause after every `iCreateLink` links.
- The two item types and the two list members of a libtoml node are one; an item
  and the node it holds are one object, as the code embeds the node in it.
- `hlist`, `list_empty_careful`, `list_entry` and the iteration macros.
- `toml_dump`, `toml_tojson`, dates, and `toml_parse`.
- TimerTable.StepKeepsShape: a timer with a period below one is left out, as above.
- Hubs, mmap data, `jc_*`, sockets, epoll, curl, Django, option reading, logging
  and the Vim front end.
