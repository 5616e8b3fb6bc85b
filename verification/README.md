# Verified model of the functional simulator's arithmetic and memory machinery

This project models the parts of the RISC-V/ARM functional simulator in which a bit-level, in-place
or clocked implementation has to equal a simple mathematical object, and proves that it does, or
proves exactly when it does not. Loops, arrays, linked lists and register updates are kept as they are
in the program; each imperative member is proved against a value-level specification, and the promises
are proved about that specification as lemmas.

## What is modelled

* **Double-precision arithmetic** (`Bits`, `Ieee`, `FpuBus`, `AddSubArith`, `FpuAddSub`, `FpuMul`,
  `FpuDiv`, `FpuDivD`, `FpuConvert`). The buses of the floating-point unit are arrays of 0/1. `Ieee`
  defines the value of a code in units of 2^-1074 and `IsRne`, round-to-nearest-even of an exact
  rational (IEEE 754-2008 section 4.3.1), without reference to any algorithm, and proves that a value
  has exactly one such code. The adder, the multiplier and the divider are then proved to return that
  code **if and only if** a condition on the operands holds.
* **High multiplication** (`MulHigh`): the tree of two-word adders with its carry recovered from three
  bits, against the high word of the exact product.
* **Attribute trees** (`Attribute`, `AttributeParse`, `AttributeRoundTrip`, `AttributeSurvival`,
  `AttributeSyntax`, `AttributeDocument`, `AttributeSort`): printer, parser, their round trip and its exact
  reach, what any document written by hand means, and the in-place quicksort whose pivot is a slot of the
  array it permutes.
* **Instruction cache** (`ICache`): two banks of four ways, line-crossing reads, round-robin replacement.
* **Sparse DDR memory** (`Ddr`): the sorted doubly linked list of blocks.
* **Timed callback queue** (`ClockQueue`), **AXI bursts of the RTL wrapper** (`AxiBurst`, `AxiBeats`),
  **instruction decoding** (`Decoder`) and **Thumb PUSH/POP** (`PushPop`).

## Where the code departs from what it stands for

Each of these is proved, by a concrete input, by the exact condition under which it happens, or by both:

* FADD.D and FSUB.D drop the sticky information when the exponents are 53 or 54 apart; a tie is then
  decided wrongly for the operands of `AddSubArith.LostTie`, and for no other finite ones. An infinity and a
  finite number give a NaN; infinities of different signs are added to an infinity and subtracted to a NaN
  (`FpuAddSub.SumHandled`).
* FMUL.D drops bit 0 of a product with a carry into bit 105, cuts a subnormal result before rounding,
  and loses the carry into the smallest normal number (`FpuMul.LosesProduct`). Infinity times a normal power of
  two or infinity is no infinity, and infinity times a NaN is one (`FpuMul.ProductHandled`).
* FDIV.D ignores the remainder flag of its divider, shifts in zeros for quotient bits that a subnormal
  dividend leaves uncomputed, and loses carries at both ends of the exponent range
  (`FpuDivD.LosesQuotient`).
* FEQ.D, FLT.D and FLE.D compare NaNs as numbers above infinity (or below minus infinity) and distinguish
  the two zeros: each is right exactly when neither changes its answer.
* FMAX.D and FMIN.D return the second operand as soon as one is infinite or NaN.
* FCVT of a NaN or of a value above the range gives the least result in the signed modes instead of the
  greatest; the unsigned modes do not saturate, and FCVT.WU.D does not extend the sign of its result
  (`FpuConvert.Saturates`).
* The rounding-mode field of an instruction is ignored: the arithmetic and the conversions
  from integers round to nearest even, and the conversions to integers truncate, which is right exactly for the
  operands of `FpuConvert.TruncationRounds`.
* MULH and MULHSU are one too low for a negative product whose low word is zero, and take -2^63 for
  +2^63 (`MulHigh.WrongHigh`).
* The buffer behind the string parser starts with 1024 bytes whatever is written first, so longer strings
  overrun it; quotes are not escaped. Hexadecimal letters behind a decimal number are passed and lost.
* The cache never initialises its tags; a cache whose lines start as zeros is transparent exactly when the
  first 4 KB of memory are zero. Its tags are those of a 32-bit address: a coherent cache is transparent at
  every address exactly when memory repeats after 2^32 bytes.
* A DDR access that runs past the end of a 1 KB block reads and writes bytes no other block sees: a write
  is right exactly when those bytes are in memory already, a read exactly when they agree with the next
  block.
* A null callback ends the drain of the timed queue, so with callbacks that only register an update
  fires all due ones exactly when none of them is null. A registration that a callback makes due after the scan
  has passed it stays in the queue, unless a later callback moves it on: nothing due is left exactly when no
  such registration remains (`ClockQueue.MarkDrain`).
* The RTL wrapper raises both ready outputs together and takes one request: a write whose handshake
  completes in a cycle in which a read is valid is dropped, and no other one is.
* Beats are addressed in steps of 8 from the start address, whatever the beat size and alignment, and a burst
  that does not increment continues at address 0. The addresses are those of AXI exactly for single beats,
  incrementing bursts of aligned 8-byte beats, fixed bursts at address 0, and wrapping bursts of two beats from
  the second one (`AxiBeats.BeatsAreAxi`); `ReadsRight` and `WritesRight` say exactly when the right bytes are
  read and written all the same.
* The RTL wrapper goes on whether the master is ready or not: beats and responses are lost exactly in the cycles
  in which it is not. Calling reset in every cycle starves all requests.
* A push wraps in 64 bits and a pop in 32: a pop undoes a push exactly when the frame fits below the stack
  pointer.

## Model

| member | source | states |
|---|---|---|
| FpuBus.ShiftRight | debugger/src/cpu_fnc_plugin/riscv-ext-f.cpp:587-600 | the pre-shifter yields the floor of the bus value over the power of two, for every shift amount |
| FpuBus.Align | debugger/src/cpu_fnc_plugin/riscv-ext-f.cpp:640-652 | the normalising shifter multiplies by the power of two, and drops bit 0 when bit 105 is set |
| FpuBus.RoundWindow | debugger/src/cpu_fnc_plugin/riscv-ext-f.cpp:684-700 | the 53-bit window, the all-ones flag and the rounding bit of a bus are those of its value |
| FpuAddSub.OrderOperands | debugger/src/cpu_fnc_plugin/riscv-ext-f.cpp:489-568 | the larger magnitude comes first, the exponent gap is the difference of scales, and the three comparison flags are the order of the keys |
| FpuAddSub.RippleAddSub | debugger/src/cpu_fnc_plugin/riscv-ext-f.cpp:602-626 | the bit-serial adder and subtractor compute the exact sum and difference of 106-bit operands |
| FpuAddSub.LeadingShift | debugger/src/cpu_fnc_plugin/riscv-ext-f.cpp:626-638 | the shift is the number of leading zeros from bit 104, or 0x7F when bit 105 is set |
| FpuAddSub.AdderWindow | debugger/src/cpu_fnc_plugin/riscv-ext-f.cpp:570-715 | shifter, adder and normalisation together leave the exponent and window of the truncated sum |
| FpuAddSub.RoundedCorrect | debugger/src/cpu_fnc_plugin/riscv-ext-f.cpp:570-755 | for every ordered operand pair the rounded fields are the nearest-even code of the exact result if and only if no tie was lost, over carries, cancellation, subnormals and overflow |
| FpuAddSub.AddSub | debugger/src/cpu_fnc_plugin/riscv-ext-f.cpp:485-755 | finite operands give a valid result of the IEEE sign, correctly rounded exactly when LosesTie is false; with an infinite or NaN operand the result is the IEEE one exactly when an operand is NaN or both are infinities of one sign |
| FpuAddSub.AddSubCompare | debugger/src/cpu_fnc_plugin/riscv-ext-f.cpp:485-788 | for every enable input and every register pair: FADD/FSUB as above; FEQ, FLT and FLE answer by the key order; FMAX and FMIN return the operand the key order picks if both are finite, and the second operand otherwise; the exception output is raised exactly for special operands and exact results from 2^1024 on |
| FpuAddSub.AdderCorrect | debugger/src/cpu_fnc_plugin/riscv-ext-f.cpp:716-755 | the result multiplexers keep the rounded value, and give the sign of the exact result with +0 for a cancellation |
| FpuAddSub.NearOperandsCorrect | debugger/src/cpu_fnc_plugin/riscv-ext-f.cpp:587-600 | operands at most 52 binades apart are always added and subtracted correctly |
| FpuAddSub.AdderCounterexample | debugger/src/cpu_fnc_plugin/riscv-ext-f.cpp:587-600 | two concrete operand pairs, at gaps 53 and 54, for which the tie is lost |
| FpuAddSub.KeyOrder | debugger/src/cpu_fnc_plugin/riscv-ext-f.cpp:512-568 | equal keys mean equal registers; for operands that are no NaN the key order is the order of the denoted values, infinities and subnormals included, refined only by -0 before +0 |
| FpuAddSub.KeysAndValues | debugger/src/cpu_fnc_plugin/riscv-ext-f.cpp:757-782 | for operands that are no NaN, each of equal, less and at most agrees with the comparison of values exactly when the operands are not the pair of zeros it tells apart |
| FpuAddSub.FeqD | debugger/src/cpu_fnc_plugin/riscv-ext-f.cpp:1259-1281 | the answer is that of IEEE 754 equality if and only if no NaN meets itself and no zero meets the other zero |
| FpuAddSub.FltD | debugger/src/cpu_fnc_plugin/riscv-ext-f.cpp:1357-1379 | the answer is that of IEEE 754 less-than if and only if no NaN operand puts the keys in this order and the operands are not -0 and +0 |
| FpuAddSub.FleD | debugger/src/cpu_fnc_plugin/riscv-ext-f.cpp:1325-1347 | the answer is that of IEEE 754 less-or-equal if and only if no NaN operand puts the keys in this order and the operands are not +0 and -0 |
| FpuAddSub.UnorderedCounterexample | debugger/src/cpu_fnc_plugin/riscv-ext-f.cpp:757-782 | a NaN that equals itself and lies above 1.0 in the order of the flags |
| FpuAddSub.FmaxD | debugger/src/cpu_fnc_plugin/riscv-ext-f.cpp:1389-1401 | the maximum of the RISC-V ISA (section 11.6 of the 20191213 document) if and only if both operands are finite or the second one is the maximum anyway |
| FpuAddSub.FminD | debugger/src/cpu_fnc_plugin/riscv-ext-f.cpp:1411-1423 | the same for the minimum |
| FpuAddSub.ExtremaCounterexample | debugger/src/cpu_fnc_plugin/riscv-ext-f.cpp:757-775 | infinity and 1.0, in the order in which FMAX.D and FMIN.D return 1.0 instead of the infinity |
| FpuAddSub.FaddD | debugger/src/cpu_fnc_plugin/riscv-ext-f.cpp:919-931 | for every register pair: correctly rounded exactly when LosesTie is false, and for special operands right exactly when SumHandled holds |
| FpuAddSub.FsubD | debugger/src/cpu_fnc_plugin/riscv-ext-f.cpp:1642-1653 | the same for the difference |
| FpuAddSub.InfinityCounterexample | debugger/src/cpu_fnc_plugin/riscv-ext-f.cpp:716-755 | no result FADD.D can give for infinity plus one is infinity |
| AddSubArith.TruncatedSum | debugger/src/cpu_fnc_plugin/riscv-ext-f.cpp:587-626 | the 106-bit sum is the exact one up to a remainder below one unit that is zero exactly when no set bit was shifted out |
| FpuMul.PartialProducts | debugger/src/cpu_fnc_plugin/riscv-ext-f.cpp:312-346 | the fourteen partial products are the multiplicand times the radix-16 digits |
| FpuMul.SumPartials | debugger/src/cpu_fnc_plugin/riscv-ext-f.cpp:348-363 | the split sums with the 4-bit carry recombine to the exact product |
| FpuMul.Imul53 | debugger/src/cpu_fnc_plugin/riscv-ext-f.cpp:306-483 | the 106 output bits are the exact product; the shift is its leading zeros from bit 104, or 0x7F exactly when bit 105 is set |
| FpuMul.ProductWindow | debugger/src/cpu_fnc_plugin/riscv-ext-f.cpp:1476-1548 | alignment exponent, normalised and post-shifted window and rounding bit of the product |
| FpuMul.ProductCorrect | debugger/src/cpu_fnc_plugin/riscv-ext-f.cpp:1488-1593 | for all finite operands the assembled code is the nearest-even code of the exact product if and only if LosesProduct is false |
| FpuMul.MulD | debugger/src/cpu_fnc_plugin/riscv-ext-f.cpp:1469-1594 | finite operands give a valid result with the product sign, correctly rounded exactly when LosesProduct is false; with an infinite or NaN operand the result is the IEEE one exactly when ProductHandled holds |
| FpuMul.NormalRangeCorrect | debugger/src/cpu_fnc_plugin/riscv-ext-f.cpp:1493-1548 | a product in the normal range that has no carry into bit 105, or is even, is rounded correctly |
| FpuMul.DroppedBitCounterexample | debugger/src/cpu_fnc_plugin/riscv-ext-f.cpp:1493-1501 | two factors between 1 and 2 whose product is rounded wrongly because bit 0 was dropped |
| FpuMul.LostCarryCounterexample | debugger/src/cpu_fnc_plugin/riscv-ext-f.cpp:1571-1593 | a product that must round up to the smallest normal number and does not |
| FpuMul.InfinityCounterexample | debugger/src/cpu_fnc_plugin/riscv-ext-f.cpp:1549-1593 | infinity times one, a NaN and infinity are not handled |
| FpuDiv.DivStage | debugger/src/cpu_fnc_plugin/riscv-ext-f.cpp:37-126 | a stage divides exactly: dividend = byte * divisor + remainder with the remainder below the divisor, within the 61-bit mask; the shift index is picked by the byte's highest bit |
| FpuDiv.StageAdvances | debugger/src/cpu_fnc_plugin/riscv-ext-f.cpp:128-280 | one stage extends the quotient by a byte and keeps the remainder below the divisor |
| FpuDiv.Idiv53 | debugger/src/cpu_fnc_plugin/riscv-ext-f.cpp:128-304 | the 105 bits are floor(A * 2^104 / D), the flag says whether D divides, the shift is the leading zeros of the quotient; a zero divisor gives all ones |
| FpuDivD.QuotientCorrect | debugger/src/cpu_fnc_plugin/riscv-ext-f.cpp:1138-1238 | for every nonzero finite dividend, subnormal ones included, and every nonzero finite divisor the assembled code is the nearest-even code of the exact quotient if and only if LosesQuotient is false |
| FpuDivD.TailRounds | debugger/src/cpu_fnc_plugin/riscv-ext-f.cpp:1138-1187 | a window whose lowest bits were never computed rounds the exact quotient correctly if and only if LosesTail is false, for any number of missing bits up to 53 |
| FpuDivD.DivD | debugger/src/cpu_fnc_plugin/riscv-ext-f.cpp:1106-1248 | for every register pair: the quotient of finite operands by nonzero ones has the product of the signs and is correctly rounded exactly when LosesQuotient is false; infinities, NaNs and zero divisors always give the IEEE result |
| FpuDivD.QuotientCounterexample | debugger/src/cpu_fnc_plugin/riscv-ext-f.cpp:1183-1187 | two operands between 1 and 2 whose quotient is rounded wrongly because the remainder flag is not used |
| FpuDivD.SubnormalCounterexample | debugger/src/cpu_fnc_plugin/riscv-ext-f.cpp:1138-1187 | the smallest subnormal number divided by three times itself is rounded wrongly without any tie |
| FpuConvert.CountZeros | debugger/src/cpu_fnc_plugin/riscv-ext-f.cpp:803-810 | the loop finds the number of leading zeros of a 64-bit word |
| FpuConvert.Int2Double | debugger/src/cpu_fnc_plugin/riscv-ext-f.cpp:790-832 | every signed and unsigned 32- and 64-bit integer becomes its correctly rounded double |
| FpuConvert.Double2Int | debugger/src/cpu_fnc_plugin/riscv-ext-f.cpp:834-906 | every double becomes its value truncated toward zero where the mode holds it, and the out-of-range word of the mode otherwise; the overflow output is raised exactly for special operands and magnitudes from the limit of the mode on |
| FpuConvert.SaturationCorrect | debugger/src/cpu_fnc_plugin/riscv-ext-f.cpp:834-906 | the result is the saturated one of the RISC-V ISA if and only if the mode and operand meet Saturates, for every mode and every double, infinities and NaNs included |
| FpuConvert.SaturationCounterexample | debugger/src/cpu_fnc_plugin/riscv-ext-f.cpp:834-906 | positive infinity becomes -2^63 in the signed mode; 2^31 is not sign-extended in the unsigned 32-bit mode |
| FpuConvert.OutOfRangeWords | debugger/src/cpu_fnc_plugin/riscv-ext-f.cpp:834-906 | the word every mode gives for infinities, NaNs and values beyond all modes, and the limits of the overflow output against the greatest value of the mode |
| FpuConvert.TruncationRounds | debugger/src/cpu_fnc_plugin/riscv-ext-f.cpp:1017-1100 | for each of the five rounding modes, the truncated value is the integer the mode makes of a finite double if and only if its fraction, sign and parity meet the condition of the mode |
| FpuConvert.ModeCounterexample | debugger/src/cpu_fnc_plugin/riscv-ext-f.cpp:1017-1036 | one and a half, which becomes one where rounding up and rounding to nearest give two |
| FpuConvert.RoundTrip | debugger/src/cpu_fnc_plugin/riscv-ext-f.cpp:790-906 | integer to double and back in the same mode is the identity if and only if the magnitude is the value of a double |
| FpuConvert.IntegerIsDouble | debugger/src/cpu_fnc_plugin/riscv-ext-f.cpp:790-832 | every integer up to 2^53, times any power of two in range, is the value of a double |
| Ieee.Units | debugger/src/cpu_fnc_plugin/riscv-ext-f.cpp:790-832 | the register 0x3FF0000000000000 is 1.0, in the units in which the smallest positive double is 1 |
| MulHigh.CarryIsTrue | debugger/src/cpu_fnc_plugin/riscv-ext-m.cpp:451-455 | the formula over two operand top bits and the result top bit is the carry of a 64-bit addition |
| MulHigh.MergePair | debugger/src/cpu_fnc_plugin/riscv-ext-m.cpp:461-469 | two neighbouring two-word values merge to their weighted sum |
| MulHigh.MergeLevel | debugger/src/cpu_fnc_plugin/riscv-ext-m.cpp:461-508 | a level of the tree holds the multiplicand times the chunks of twice the width |
| MulHigh.PairFits | debugger/src/cpu_fnc_plugin/riscv-ext-m.cpp:461-508 | no merged value exceeds 128 bits |
| MulHigh.Multiply | debugger/src/cpu_fnc_plugin/riscv-ext-m.cpp:425-508 | six levels give the exact 128-bit product |
| MulHigh.Mulhu | debugger/src/cpu_fnc_plugin/riscv-ext-m.cpp:416-512 | MULHU is floor(a1 * a2 / 2^64) for all 64-bit operands |
| MulHigh.Mulh | debugger/src/cpu_fnc_plugin/riscv-ext-m.cpp:172-290 | MULH is the high word of the signed product if and only if WrongHigh is false, and otherwise exactly one less unless an operand is -2^63 |
| MulHigh.Mulhsu | debugger/src/cpu_fnc_plugin/riscv-ext-m.cpp:298-408 | the same for a signed and an unsigned operand |
| MulHigh.MulhCounterexample | debugger/src/cpu_fnc_plugin/riscv-ext-m.cpp:280-288 | operands that meet the wrong case: -2^32 * 2^32, and -2^63 * 1 |
| Attribute.AttributeToString | debugger/src/common/attribute.cpp:490-543 | appends exactly the text of the tree to the buffer |
| Attribute.ListToString | debugger/src/common/attribute.cpp:507-518 | a list is its items' texts with commas between them in brackets |
| Attribute.DictToString | debugger/src/common/attribute.cpp:519-535 | a dictionary is its quoted keys and values with colons and commas in braces |
| Attribute.PairToString | debugger/src/common/attribute.cpp:519-535 | one entry of a dictionary, with its quoted key and the comma where another follows, is written without an overrun |
| Attribute.DataToString | debugger/src/common/attribute.cpp:536-544 | data is its bytes as two upper-case hex digits each, with commas, in parentheses |
| AttributeDocument.PrintedNumber | debugger/src/common/autobuffer.cpp:64-68 | a number is printed as the digits that stand for it by position in base 16, in small letters and without leading zeros |
| AttributeDocument.PrintedByte | debugger/src/common/autobuffer.cpp:70-74 | a byte is printed as 0x and two capital hexadecimal digits, the higher one first |
| AttributeDocument.PrintedLeaves | debugger/src/common/attribute.cpp:490-506 | the words and numbers printed for leaves; negative integers as their 64-bit word |
| AttributeDocument.PrintedSequences | debugger/src/common/attribute.cpp:507-518 | the text of a list and of data of two elements |
| AttributeDocument.PrintedDictionary | debugger/src/common/attribute.cpp:519-535 | the text of a dictionary of two entries |
| Attribute.AutoBuffer.Reserve | debugger/src/common/autobuffer.cpp:36-50 | the buffer keeps its characters and has room for the new ones and a NUL, if and only if it had been allocated before or there are fewer than 1024 of them |
| Attribute.AutoBuffer.WriteBin | debugger/src/common/autobuffer.cpp:36-54 | a write stays inside the buffer if and only if it is not the first or has fewer than 1024 characters, and then the text grows by it and ends with a NUL |
| AttributeParse.SkipSpecialSymbols | debugger/src/common/attribute.cpp:566-573 | stops at the first character that is not a space, tab or line end |
| AttributeParse.StringToAttribute | debugger/src/common/attribute.cpp:575-789 | the in-place parser computes the recursive grammar ParseValue, failures included |
| AttributeParse.StringLoop | debugger/src/common/attribute.cpp:579-597 | a quoted string runs to its own quote, fails at the end of the text, and overruns the buffer exactly from 1024 characters on |
| AttributeParse.ListLoop | debugger/src/common/attribute.cpp:598-622 | the list loop computes ParseItems |
| AttributeParse.DictLoop | debugger/src/common/attribute.cpp:623-676 | the dictionary loop computes ParsePairs, later entries replacing earlier ones of the same key; a Type entry with a string other than IService changes nothing |
| AttributeParse.DataLoop | debugger/src/common/attribute.cpp:677-717 | the data loop computes ParseBytes |
| AttributeParse.NumberLoop | debugger/src/common/attribute.cpp:732-788 | optional sign or 0x, at most 63 digit characters, strtoull with its base rule and saturation, and the guard against an empty number |
| AttributeSyntax.NumberReads | debugger/src/common/attribute.cpp:732-788 | a row of digits after an optional minus sign is read as the 64-bit number it stands for by position, in base 10, or in base 8 when it starts with 0; digits of other bases behind it are passed |
| AttributeSyntax.HexReads | debugger/src/common/attribute.cpp:732-788 | up to 61 hexadecimal digits in either case after 0x are read as the 64-bit number they stand for by position |
| AttributeSyntax.DecimalTrip | debugger/src/common/attribute.cpp:749-788 | up to 20 decimal digits below 2^64 are read as that number, negated after a minus sign, up to the delimiter |
| AttributeSyntax.NumberIsPositional | debugger/src/common/attribute.cpp:749 | strtoull gives the positional value of the digits of its base, at most 2^64 - 1, and stops at the first other character |
| AttributeDocument.DocReads | debugger/src/common/attribute.cpp:575-789 | wherever a document stands before a delimiter the parser reads its meaning: keywords in both spellings, numbers in three bases, both quotes, lists, dictionaries and data with blanks anywhere between their parts and a comma at the end |
| AttributeDocument.WholeDocument | debugger/src/common/attribute.cpp:575-789 | a text of blanks, a document and blanks is read to its end as the meaning of the document |
| AttributeDocument.PollingInterval | debugger/src/common/attribute.cpp:575-789 | the attribute ['PollingMs',100] of a platform description is a list of a string and the number 100 |
| AttributeDocument.LettersLost | debugger/src/common/attribute.cpp:741-749 | 12ab is read as 12 |
| AttributeDocument.UnclosedFails | debugger/src/common/attribute.cpp:598-717 | at the end of the text no value, list, dictionary or data is accepted |
| AttributeDocument.OpenStringFails | debugger/src/common/attribute.cpp:579-597 | a string whose quote does not come again is not accepted |
| AttributeDocument.AlienFails | debugger/src/common/attribute.cpp:781-788 | a character no value starts with is refused |
| AttributeDocument.NoColonFails | debugger/src/common/attribute.cpp:636-641 | a dictionary key without a colon behind it is refused |
| AttributeDocument.NoCommaFails | debugger/src/common/attribute.cpp:698-708 | a data byte that neither a comma nor the bracket follows is refused |
| AttributeRoundTrip.RoundTrip | debugger/src/common/attribute.cpp:490-789 | wherever the text of a printable tree stands before a delimiter, parsing returns the tree, with unsigned integers as signed ones of the same bits, and stops at the delimiter |
| AttributeRoundTrip.PrintParse | debugger/src/common/attribute.cpp:475-488 | parsing the whole printed text consumes it all and returns the tree |
| AttributeRoundTrip.NumberTrip | debugger/src/common/attribute.cpp:732-788 | a printed 64-bit word is read back as the signed integer with the same bits |
| AttributeRoundTrip.StringSurvives | debugger/src/common/attribute.cpp:579-597 | a string comes back if and only if it has no double quote, no NUL and fewer than 1024 characters |
| AttributeSurvival.DictSurvives | debugger/src/common/attribute.cpp:623-676 | a dictionary of entries that come back one by one, with Type entries that are nil or strings, comes back if and only if no key is repeated and no Type entry is IService |
| AttributeRoundTrip.TypeEntry | debugger/src/common/attribute.cpp:665-676 | with distinct keys the parser follows up the Type entry exactly when that is neither nil nor a string other than IService |
| AttributeRoundTrip.FoldKeeps | debugger/src/common/attribute.cpp:157-168 | putting entries one after another gives the entries themselves exactly when their keys differ, and fewer otherwise |
| AttributeRoundTrip.FoldLast | debugger/src/common/attribute.cpp:650 | of several entries with one key the last one counts |
| AttributeRoundTrip.PutGet | debugger/src/common/attribute.cpp:650 | putting an entry sets the value of its key and keeps the other values and the order of the keys |
| AttributeSurvival.TreeOutcome | debugger/src/common/attribute.cpp:490-789 | wherever the text of a regular tree stands before a delimiter, a printable tree is read back, and any other one fails or is read to its end as something else |
| AttributeSurvival.PairsOutcome | debugger/src/common/attribute.cpp:623-676 | the dictionary loop on the text of regular entries fails, or reads every key, and a wrong value exactly where the value is not printable |
| AttributeSurvival.PlainTreeSurvives | debugger/src/common/attribute.cpp:490-789 | a tree whose dictionaries are regular (no double quote in a string or key, Type entries nil or strings) comes back whole if and only if it is printable |
| AttributeSort.TotalPreorder | debugger/src/common/attribute.cpp:342-402 | the comparisons are total and transitive on elements of one kind |
| AttributeSort.AtMostAscends | debugger/src/common/attribute.cpp:342-402 | within one kind the order is that of the numbers, and for strings that of the first different character with a prefix first |
| AttributeSort.SwapListItem | debugger/src/common/attribute.cpp:320-333 | exchanges two slots, and nothing when they are the same |
| AttributeSort.ScanUp | debugger/src/common/attribute.cpp:342-370 | passes exactly the elements less than the pivot slot, up to hi |
| AttributeSort.ScanDown | debugger/src/common/attribute.cpp:372-400 | passes exactly the elements greater than the pivot slot, down to lo |
| AttributeSort.FirstSwap | debugger/src/common/attribute.cpp:336-408 | the swap that overwrites the pivot slot leaves a value that still splits the range |
| AttributeSort.Partition | debugger/src/common/attribute.cpp:336-410 | returns j with lo <= j < hi, a permutation of the range, everything up to j at most the final pivot and everything above at least it |
| AttributeSort.Quicksort | debugger/src/common/attribute.cpp:412-419 | terminates with the range sorted, permuted, and everything outside it untouched |
| AttributeSort.Sort | debugger/src/common/attribute.cpp:421-425 | the list ends with the same elements in ascending order: unsigned and signed keys by size, strings by their first different character, a prefix before the longer string |
| ICache.LineNumber | debugger/src/cpu_fnc_plugin/icache_func.cpp:243-276 | tag, index, bank bit, line and offset of an address are the digits of its line number |
| ICache.WriteLine | debugger/src/cpu_fnc_plugin/icache_func.h:75-82 | the strobed words of one line change, and its tag if there is one, nothing else |
| ICache.HalfOfLine | debugger/src/cpu_fnc_plugin/icache_func.h:83-96 | the word and half-word index taken from a line filled from memory are those of the half-word at the offset in memory |
| ICache.ReadLine | debugger/src/cpu_fnc_plugin/icache_func.cpp:224-241 | four beats replace one line by the 32 bytes of memory around the address |
| ICache.SelectWay | debugger/src/cpu_fnc_plugin/icache_func.cpp:162-200 | the last way with a matching tag is selected, with its two halves |
| ICache.Replace | debugger/src/cpu_fnc_plugin/icache_func.cpp:77-106 | the next victim of the row is overwritten and becomes the last |
| ICache.ICacheFunctional.constructor | debugger/src/cpu_fnc_plugin/icache_func.cpp:22-33 | every replacement row starts with way 0 next, then 1, 2 and 3; tags are left as found |
| ICache.ICacheFunctional.GetCachedValue | debugger/src/cpu_fnc_plugin/icache_func.cpp:123-222 | both halves come from the bank of the address, or the second from the other bank at a line's end |
| ICache.ICacheFunctional.BTransport | debugger/src/cpu_fnc_plugin/icache_func.cpp:63-121 | the whole new state is Access of the old one; from a coherent state both halves hit and are memory, and the state stays coherent |
| ICache.Transparent | debugger/src/cpu_fnc_plugin/icache_func.cpp:63-121 | one access from a coherent cache delivers the four bytes at the even address, line-crossing included, wherever it ends below 2^32, and anywhere if memory repeats after 2^32 bytes |
| ICache.DeliveredBytes | debugger/src/cpu_fnc_plugin/icache_func.cpp:109-111 | the low byte of each half is the memory byte at the lower address |
| ICache.WordBytes | debugger/src/cpu_fnc_plugin/icache_func.cpp:224-241 | the bus word of a beat has its eight memory bytes in ascending order |
| ICache.HitKeeps | debugger/src/cpu_fnc_plugin/icache_func.cpp:63-107 | an access that hits in both halves changes nothing, and one that hits in the first keeps its bank |
| ICache.LastWay | debugger/src/cpu_fnc_plugin/icache_func.cpp:176-187 | of several ways with the tag the last one answers |
| ICache.RunTransparent | debugger/src/cpu_fnc_plugin/icache_func.cpp:63-121 | over every run of such accesses every answer is memory and the cache stays coherent |
| ICache.WholeRange | debugger/src/cpu_fnc_plugin/icache_func.cpp:63-276 | from a coherent cache every run of accesses at whatever 64-bit addresses delivers memory if and only if memory repeats after 2^32 bytes |
| ICache.FaithfulRepeats | debugger/src/cpu_fnc_plugin/icache_func.cpp:243-276 | a cache in any state that always delivers memory stands for memory that repeats after 2^32 bytes |
| ICache.AliasCounterexample | debugger/src/cpu_fnc_plugin/icache_func.cpp:243-276 | two addresses 2^32 apart with different contents, one of which is not delivered |
| ICache.EmptyCoherent | debugger/src/cpu_fnc_plugin/icache_func.h:71-82 | a cache with no possible tag is coherent for every memory |
| ICache.ZeroedCache | debugger/src/cpu_fnc_plugin/icache_func.h:65-74 | with lines that start as zeros, every run of accesses below 2^32 - 2 delivers memory if and only if the first 4 KB of memory are zero |
| ICache.ZeroedWholeRange | debugger/src/cpu_fnc_plugin/icache_func.h:65-74 | with lines that start as zeros, every run of accesses at whatever 64-bit addresses delivers memory if and only if the first 4 KB of memory are zero and memory repeats after 2^32 bytes |
| ICache.RoundRobin | debugger/src/cpu_fnc_plugin/icache_func.cpp:79-88 | a rotated row stays a permutation, four fills replace four different ways, and then the order repeats |
| ICache.RunPermutations | debugger/src/cpu_fnc_plugin/icache_func.cpp:63-121 | every replacement row stays a permutation over every run |
| ICache.FetchedStays | debugger/src/cpu_fnc_plugin/icache_func.cpp:77-106 | a fetched line survives any further fills of its bank, as long as no more than three go to its row |
| Ddr.DDR.constructor | debugger/src/socsim_plugin/ddr.cpp:22-28 | block 0 alone, all zero |
| Ddr.DDR.GetpMem | debugger/src/socsim_plugin/ddr.cpp:54-91 | returns the block and index of the address, adds a zeroed block exactly when it is missing, and keeps the list doubly linked and strictly increasing from block 0 |
| Ddr.DDR.Search | debugger/src/socsim_plugin/ddr.cpp:55-60 | the search terminates at the last block or the first one not below the wanted number |
| Ddr.DDR.InsertAfter | debugger/src/socsim_plugin/ddr.cpp:62-72 | the appended block is linked in and everything else is kept |
| Ddr.DDR.InsertBefore | debugger/src/socsim_plugin/ddr.cpp:75-87 | the inserted block always has a predecessor and is linked in |
| Ddr.DDR.BTransport | debugger/src/socsim_plugin/ddr.cpp:43-52 | the contents and the answer are exactly those of the block-wise transaction, for every address and access size |
| Ddr.WriteIsFlat | debugger/src/socsim_plugin/ddr.cpp:43-52 | a write acts on flat memory if and only if every byte it would put past its 1 KB block is already there |
| Ddr.ReadIsFlat | debugger/src/socsim_plugin/ddr.cpp:43-52 | a read answers like flat memory if and only if the bytes its block holds past the 1 KB span are those of flat memory |
| Ddr.CrossingCounterexample | debugger/src/socsim_plugin/ddr.cpp:43-52 | two bytes written across a 1 KB boundary, of which a read at the boundary does not find the second |
| Ddr.RunIsFlat | debugger/src/socsim_plugin/ddr.cpp:43-91 | over every run of accesses inside 1 KB blocks the answers are those of a flat zero-filled memory |
| Ddr.RunExact | debugger/src/socsim_plugin/ddr.cpp:43-91 | over every run, across block ends too, answers and contents stay those of flat memory if and only if every access meets its own condition at its turn |
| Ddr.ProbesAgree | debugger/src/socsim_plugin/ddr.cpp:43-91 | contents agree with flat memory if and only if every read of a single byte does |
| ClockQueue.ClockAsyncTQueue.PutItem | debugger/src/common/async_tqueue.cpp:95-107 | the item joins the pre-queue unless that holds 1024 |
| ClockQueue.ClockAsyncTQueue.Grow | debugger/src/common/async_tqueue.cpp:134-141 | doubling keeps the queue's items and makes room for the pre-queue |
| ClockQueue.ClockAsyncTQueue.PushPre | debugger/src/common/async_tqueue.cpp:129-146 | the pre-queue is appended in order and emptied |
| ClockQueue.ClockAsyncTQueue.Next | debugger/src/common/async_tqueue.cpp:149-169 | returns the first due callback from the counter on and fills its slot with the last item |
| ClockQueue.ClockAsyncTQueue.MoveItem | debugger/src/common/async_tqueue.cpp:109-127 | exactly the first registration of the callback, waiting before queued, gets the new time; false if there is none |
| ClockQueue.ClockAsyncTQueue.HardReset | debugger/src/common/async_tqueue.cpp:88-92 | everything is dropped |
| ClockQueue.ClockAsyncTQueue.Update | debugger/src/common/generic/cpu_generic.cpp:281-289 | the drain loop fires what the specification UpdateQueue says, with callbacks that register further items and move others, differently at every firing |
| ClockQueue.ClockAsyncTQueue.MoveStepCallback | debugger/src/common/generic/cpu_generic.cpp:418-424 | the callback is moved if it is registered, and registered with the time otherwise |
| ClockQueue.GetNextTakes | debugger/src/common/async_tqueue.cpp:149-169 | nothing before the counter is due, one due item leaves, the rest is kept with multiplicity |
| ClockQueue.GetNextFirst | debugger/src/common/async_tqueue.cpp:149-169 | the item at the first due position from the counter on is taken, the last item takes its place, and the counter stays there |
| ClockQueue.PutOrder | debugger/src/common/async_tqueue.cpp:95-146 | a registration joins behind the waiting ones exactly while fewer than 1024 wait, and the waiting ones join the queue in their order |
| ClockQueue.MoveFirst | debugger/src/common/async_tqueue.cpp:109-127 | a move sets the time of the first waiting registration of the callback, or of the first queued one if none waits |
| ClockQueue.PerformInOrder | debugger/src/common/generic/cpu_generic.cpp:418-424 | actions of a callback take effect one after another; a move registers what is neither waiting nor queued |
| ClockQueue.UpdateFiresDue | debugger/src/common/generic/cpu_generic.cpp:281-289 | with callbacks that only register, an update fires exactly the due items, each once, if and only if no due item is null, and then it leaves exactly the later ones |
| ClockQueue.NullStopsDrain | debugger/src/common/generic/cpu_generic.cpp:286-288 | a null callback ends the drain with a due one unfired |
| ClockQueue.PullsOnly | debugger/src/common/async_tqueue.cpp:109-127 | what a callback does to the queue keeps everything the scan has passed late if and only if it does not move a passed registration to a time that is due |
| ClockQueue.DrainMarks | debugger/src/common/generic/cpu_generic.cpp:281-289 | the due registrations behind the scan at the end of a drain are exactly the ones the callbacks have made due there and not moved on |
| ClockQueue.DrainLeavesNone | debugger/src/common/generic/cpu_generic.cpp:281-289 | whatever the callbacks do, a drain that no null ends leaves nothing due if and only if no registration behind the scan is marked in the end |
| ClockQueue.UpdateLeavesNone | debugger/src/common/generic/cpu_generic.cpp:281-289 | the same for an update, which starts with no registration behind the scan |
| ClockQueue.AheadDrain | debugger/src/common/generic/cpu_generic.cpp:281-289 | if no callback of the drain makes a passed registration due, nothing due is left unless a null ends the drain |
| ClockQueue.FiresOnlyDue | debugger/src/common/generic/cpu_generic.cpp:281-289 | whatever the callbacks register and move, only due callbacks fire |
| ClockQueue.PostponingDrain | debugger/src/common/generic/cpu_generic.cpp:281-289 | with callbacks that also move registrations past the step, what fires is due, and unless a null ends the drain nothing due is left |
| ClockQueue.PulledForwardMissed | debugger/src/common/generic/cpu_generic.cpp:281-289 | a callback that moves a registration the scan has passed to an earlier time: it is due and is not fired |
| ClockQueue.DrainConserves | debugger/src/common/generic/cpu_generic.cpp:281-289 | whatever the callbacks register and move, a drain gives out or keeps every callback it held or accepted, with multiplicity |
| ClockQueue.RunConserves | debugger/src/common/async_tqueue.cpp:88-169 | over every run, accepted callbacks equal returned or discarded plus held ones, with multiplicity |
| AxiBurst.RtlWrapper.Comb | debugger/src/cpu_sysc_plugin/rtl_wrapper.cpp:116-246 | the next registers and outputs are those of the transition function |
| AxiBurst.RtlWrapper.Cycle | debugger/src/cpu_sysc_plugin/rtl_wrapper.cpp:260-286 | one clock moves the state by one step |
| AxiBurst.Grants | debugger/src/cpu_sysc_plugin/rtl_wrapper.cpp:149-214 | in an idle cycle without a reset request and on the last beat of a burst both ready outputs are high, and the next state is a read if one is valid, else a write if one is valid, else idle, with the address, length and burst type of that request |
| AxiBurst.Withholds | debugger/src/cpu_sysc_plugin/rtl_wrapper.cpp:149-196 | in every other cycle both are low, and the burst goes on, the reset state is entered or left |
| AxiBurst.ReadyWithin | debugger/src/cpu_sysc_plugin/rtl_wrapper.cpp:149-214 | over every run ready comes within the remaining beats of the burst on the bus, or within two cycles without one if no reset is called meanwhile |
| AxiBurst.RequestShaken | debugger/src/cpu_sysc_plugin/rtl_wrapper.cpp:149-238 | a read or write request held valid for that long is shaken |
| AxiBurst.ResetStarves | debugger/src/cpu_sysc_plugin/rtl_wrapper.cpp:149-155 | while reset is called in every cycle an idle wrapper never gets ready |
| AxiBurst.ResetServed | debugger/src/cpu_sysc_plugin/rtl_wrapper.cpp:148-196 | a reset called outside the reset state is served in the next idle cycle, whatever bursts come before |
| AxiBurst.BurstRuns | debugger/src/cpu_sysc_plugin/rtl_wrapper.cpp:149-214 | an accepted request of length L is on the bus for the next L + 1 cycles, beat k at its address with the errors so far latched |
| AxiBurst.ReadBurst | debugger/src/cpu_sysc_plugin/rtl_wrapper.cpp:159-172 | a read beat every cycle, last and ready only on beat L, SLVERR exactly from the first failing beat on |
| AxiBurst.WriteBurst | debugger/src/cpu_sysc_plugin/rtl_wrapper.cpp:173-189 | after a completed write handshake without a valid read, a write beat every cycle, ready only on beat L, no response in between; with a valid read the read is served instead |
| AxiBurst.WriteResponse | debugger/src/cpu_sysc_plugin/rtl_wrapper.cpp:173-189 | after a completed write handshake without a valid read, the response follows the last beat by one cycle and is SLVERR if and only if some beat failed; with a valid read the read is served instead |
| AxiBurst.ResponseCause | debugger/src/cpu_sysc_plugin/rtl_wrapper.cpp:136-189 | every response answers a write whose handshake completed, without a valid read, its length and two cycles before |
| AxiBurst.WriteOrigin | debugger/src/cpu_sysc_plugin/rtl_wrapper.cpp:136-189 | a write on the bus goes back to a handshake without a valid read, as many cycles ago as beats have passed |
| AxiBurst.DroppedWrite | debugger/src/cpu_sysc_plugin/rtl_wrapper.cpp:198-238 | with both requests valid both handshakes complete, and the write gets no beat and no response |
| AxiBurst.ConsecutiveWords | debugger/src/cpu_sysc_plugin/rtl_wrapper.cpp:165-171 | a burst runs through consecutive words if and only if it increments, has one beat, or wraps to 0 at its second and last |
| AxiBurst.FixedBurstMoves | debugger/src/cpu_sysc_plugin/rtl_wrapper.cpp:165-171 | a fixed burst at 0x8000 reads its second beat at 0 |
| AxiBeats.BeatsAreAxi | debugger/src/cpu_sysc_plugin/rtl_wrapper.cpp:165-189 | for every burst type, length, beat size and alignment AXI allows on the 8-byte bus, every beat is at its AXI address if and only if there is one beat, or the burst increments by aligned 8-byte beats, or is fixed at address 0, or wraps two beats from the second one |
| AxiBeats.ReadsRight | debugger/src/cpu_sysc_plugin/rtl_wrapper.cpp:165-172 | every read beat delivers the bytes of its AXI address if and only if there is one beat, or the burst increments by aligned 8-byte beats, or is fixed in the lowest word, or wraps inside it, or wraps two 8-byte beats from address 8 |
| AxiBeats.WritesRight | debugger/src/cpu_sysc_plugin/rtl_wrapper.cpp:182-189 | every write beat reaches the word of its AXI address under the same condition, or if the burst increments by 8-byte beats from any address, or by two narrower beats on both sides of a word boundary |
| AxiBeats.LanesDelivered | debugger/src/cpu_sysc_plugin/rtl_wrapper.cpp:303-311 | the lanes of a read beat hold the bytes of an AXI address for every memory if and only if the beat is in its word and starts no higher |
| AxiBeats.UnalignedCounterexample | debugger/src/cpu_sysc_plugin/rtl_wrapper.cpp:165-172 | an incrementing burst of two 8-byte beats from 0x1004, whose second beat is at 0x100C instead of 0x1008 |
| AxiBeats.NarrowCounterexample | debugger/src/cpu_sysc_plugin/rtl_wrapper.cpp:165-189 | an incrementing burst of two 4-byte beats from 0x1000, whose second beat is at 0x1008 instead of 0x1004 |
| AxiBurst.RunConserves | debugger/src/cpu_sysc_plugin/rtl_wrapper.cpp:149-214 | over every run, beats asked for are served or owed, read handshakes have had their last beat or are on the bus, and write handshakes have had their response, await it, or were completed together with one of a read |
| AxiBurst.NoneLost | debugger/src/cpu_sysc_plugin/rtl_wrapper.cpp:198-238 | over every run, each write whose handshake completed has had its response or awaits it, if and only if no cycle meets both requests with ready |
| AxiBurst.MasterKeepsUp | debugger/src/cpu_sysc_plugin/rtl_wrapper.cpp:159-189 | over every run, all beats of reads are taken, all beats of writes supplied and all responses taken, up to the ones still owed, if and only if the master is ready or valid in every cycle with a read, a write or a response |
| AxiBurst.ResetPulse | debugger/src/cpu_sysc_plugin/rtl_wrapper.cpp:148-227 | a reset request in an idle cycle lowers the system reset for exactly one cycle |
| AxiBurst.Mask2Offset | debugger/src/cpu_sysc_plugin/rtl_wrapper.cpp:347-355 | the lowest set lane, 0 without one |
| AxiBurst.Mask2Size | debugger/src/cpu_sysc_plugin/rtl_wrapper.cpp:357-367 | the length of the run of set lanes from lane 0 |
| AxiBurst.LaneBit | debugger/src/cpu_sysc_plugin/rtl_wrapper.cpp:347-367 | lane j of a strobe is its bit j |
| AxiBurst.WriteBeat | debugger/src/cpu_sysc_plugin/rtl_wrapper.cpp:325-340 | the transaction stays in its 8-byte word, carries those lanes' bytes, and covers the strobed lanes if and only if the strobe is contiguous |
| Decoder.NewInstruction | debugger/src/cpu_fnc_plugin/instructions.cpp:24-46 | mask and opcode of a pattern string, with which parse accepts exactly the words that agree with it |
| Decoder.ParseAgrees | debugger/src/cpu_fnc_plugin/instructions.h:35-37 | parse holds if and only if the word agrees with the pattern at every fixed position |
| Decoder.AcceptedHash | debugger/src/cpu_fnc_plugin/instructions.h:39-66 | an indexable instruction that accepts a word hashes to that word's bucket |
| Decoder.DecodeIsLinear | debugger/src/cpu_fnc_plugin/cpu_riscv_func.cpp:225-248 | for indexable instructions the two-bucket lookup is the first match in registration order |
| Decoder.DecodeFindsEarliest | debugger/src/cpu_fnc_plugin/cpu_riscv_func.cpp:225-248 | for indexable registrations the lookup gives an instruction if and only if it accepts the word and none registered before it does, and nothing if and only if none accepts it |
| Decoder.AlwaysFound | debugger/src/cpu_fnc_plugin/cpu_riscv_func.cpp:225-248 | the lookup finds an instruction for every word it accepts if and only if its pattern fixes the bits of its hash |
| Decoder.OpenHashBitMisses | debugger/src/cpu_fnc_plugin/cpu_riscv_func.cpp:225-248 | a pattern that leaves a hash bit open is missed by the lookup although it accepts the word |
| Decoder.CpuRiverFunctional.AddSupportedInstruction | debugger/src/cpu_fnc_plugin/cpu_riscv_func.cpp:88-93 | every bucket stays the registered instructions of its hash, in order |
| Decoder.CpuRiverFunctional.DecodeInstruction | debugger/src/cpu_fnc_plugin/cpu_riscv_func.cpp:225-252 | for indexable registrations returns the accepting instruction registered earliest, or none, and counts the reservation watchdog down to 0 |
| PushPop.CpuCortex.Push | debugger/src/cpu_arm_plugin/thumb.cpp:2394-2422 | LR and the listed registers are saved below the stack pointer with their lowest byte first, the stack pointer moves by the frame, in 64-bit addresses that may wrap; no byte outside the frame and no other register changes |
| PushPop.CpuCortex.Pop | debugger/src/cpu_arm_plugin/thumb.cpp:2316-2344 | the listed registers and PC get the words of their four bytes, lowest first, and the stack pointer moves by the frame, in 32-bit addresses that may wrap; nothing else changes |
| PushPop.CpuCortex.LoadWritePC | debugger/src/cpu_arm_plugin/instructions.cpp:333-354 | an exception return, or a branch to the even address in the mode of bit 0 |
| PushPop.PushedBytes | debugger/src/cpu_arm_plugin/thumb.cpp:2394-2422 | the four bytes of each slot are those of its register |
| PushPop.PoppedWords | debugger/src/cpu_arm_plugin/thumb.cpp:2316-2344 | each listed register holds the little-endian word of its slot, and execution goes on at the word for PC |
| PushPop.FrameLayout | debugger/src/cpu_arm_plugin/thumb.cpp:2316-2422 | the frame has a word for every listed register and LR, and below a register in it are the listed ones with lower numbers |
| PushPop.PopUndoesPush | debugger/src/cpu_arm_plugin/thumb.cpp:2316-2422 | a pop restores what a push of the same list saved, whatever happened to the registers in between; with LR and PC, execution resumes at LR in the mode of its bit 0, or takes the exception return |
| PushPop.UndoneExactly | debugger/src/cpu_arm_plugin/thumb.cpp:2316-2422 | in a state with 32-bit registers a push is undone by every pop that finds the stack pointer and the pushed bytes as they were left, if and only if its frame fits below the stack pointer |
| PushPop.WrapLoses | debugger/src/cpu_arm_plugin/thumb.cpp:2316-2422 | for every push that wraps, a memory with the pushed bytes in place from which the pop does not restore the state |

## Left out

- FpuAddSub.AddSub: of a NaN result only that it is a NaN, not its sign and payload.
- FpuMul.MulD: of a NaN result only that it is a NaN, not its sign and payload.
- FpuDivD.DivD: of a NaN result only that it is a NaN, not its sign and payload.
- AttributeSurvival.PlainTreeSurvives: for a dictionary with a double quote in a key or string only one direction is claimed (by RoundTrip), because its text can be read as other entries than it was printed from. A Type value that is neither nil nor a string is read through the wrong member of a union by the code; the parser model answers Unmodelled there.
- Attribute.AttributeToString: floating-point and interface attributes are not modelled.
- AttributeParse.DataLoop: data bytes with characters that are no hex digits are Unmodelled.
- AttributeParse.NumberLoop: numbers with a fraction are Unmodelled.
- ClockQueue.ClockAsyncTQueue.MoveStepCallback: registering a time that has passed while the processor is not enabled, which calls back at once.
- The exception flags written to fcsr, results of arithmetic in other rounding modes than nearest even, and the decoding of register indices around the arithmetic.
- The else-if chains that find leading bits and the unrolled stages are written as functions and repeated calls; the six levels of the multiplication tree call one method per pair and per level.
- Bitwise or of words without common bits is written as addition; shifts and masks of integers are written as products, quotients and remainders.
- Floating-point attributes, interface attributes and the service lookup behind a Type entry with the string IService: the parser model answers Unmodelled there, as it does where the string buffer is overrun, keys that are not strings, and data bytes that are not hex digits.
- The parser's error messages and the freeing of its output; what an overrun of AutoBuffer does to other memory; sizes beyond 2^31 in it.
- Lists of mixed kinds in sort, where the comparison reads one kind of value as another.
- Cache writes, flushes and the self-check against a second bus read; the bus behind the cache is constant memory.
- DDR payloads wider than 8 bytes, and the destructor.
- Callbacks that start a second drain or reset the queue while it is drained; overflow of the 32-bit array size.
- Delta cycles, interrupts, the clock counter, and identifiers and user signals in the RTL wrapper.
- The instruction tables themselves, and the other encodings of PUSH and POP.
- IT-block conditions, and what an exception return does after it is requested.
- Threads and mutexes, plugin loading, tracing, file and network access.
