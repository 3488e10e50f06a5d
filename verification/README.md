# The CRC engine and the ownership discipline of `any`, modelled and proved

Two headers are modelled: `cpp/include/boost/crc.hpp` and `cpp/include/boost/any.hpp`.

## The CRC engine

A register of any built-in unsigned type is a `Register`: its bits, the 1-place first, so
its length is the width W of the type. The order n (`Bits`, `Order`, `register_length`) is
any number with 0 < n <= W. Nothing is assumed about the bits that a parameter holds above
the order, since the original calls them unregulated.

| file | contents |
|---|---|
| `Registers.dfy` | machine words: shifts, masks, conversions, numeric values |
| `Division.dfy` | the two division steps run over a bit stream, and their algebra: linearity, carry bits, zero bits, bursts |
| `Polynomials.dfy` | GF(2)[x]: product, what a remainder is, its uniqueness, and that the dividers compute it |
| `Reflection.dfy` | the swapping loop, the byte table, the sub-byte form |
| `Dividers.dfy` | the word-at-a-time divider loops |
| `Tables.dfy` | the table generator and the meaning of the elements |
| `Drivers.dfy`, `CrcDriver.dfy` | the byte-fed drivers, as functions and as loops over a buffer |
| `Formula.dfy` | one CRC formula, and the two computers for it as functions of their register |
| `Agreement.dfy` | when the two computers agree, and when a computation can be interrupted |
| `Detection.dfy` | which bursts are seen; checksums of xored messages |
| `Sessions.dfy` | whole runs of feeding and resetting |
| `AugmentedMessages.dfy` | zero trailer and checksum trailer for `augmented_crc` |
| `CrcBasic.dfy`, `CrcOptimal.dfy` | the two classes and the functions `crc` and `augmented_crc` |

The specification is polynomial division. `Polynomials.IsRemainder(d, p, r)` says that
d = q * (x^n + p) + r for some q; it is defined from the schoolbook product alone and its
remainder is proved unique. Everything else is measured against it:

* both dividers compute that remainder, for words read from either end;
* a byte by table is eight division steps; the reflected driver is the direct driver in a mirror;
* `crc_basic` and `crc_optimal` carry their own history as ghost fields, and their checksums
  are stated as functions of that history, however the input was cut.

**The agreement theorem.** `crc_optimal` does not agree with `crc_basic` in every setting. The
left shift of the divider leaves carry bits above the order
(`cpp/include/boost/crc.hpp:571`), the table keeps them (`cpp/include/boost/crc.hpp:981`),
and the reflected driver shifts them back down (`cpp/include/boost/crc.hpp:1248`).
`Agreement.AgreementIffCarriesHarmless` gives the exact condition, for all parameters: the
two agree on every message if and only if the input is not reflected, or n < 8, or W = n, or
the polynomial was given with its x^n term and nothing above it, and the start remainder fits
(or n = 8, where the start remainder is cut to fit). When the parameters keep to the order,
what is left is `Exact`: not reflected, or n < 8, or W = n (`Agreement.AgreementIffExact`).
`Agreement.ResumptionIffCarriesHarmless` gives the same condition for interrupting a
computation and resuming it from `get_interim_remainder`. Outside the condition the proofs
construct the messages that go wrong.

**Bursts.** All bursts of at most n bits change the checksum if and only if the polynomial
has its constant term, for bit strings (`Detection.BurstsSeenIffOdd`) and for byte messages
(`Detection.ByteBurstsSeenIffOdd`); for an even polynomial the proof names a burst that goes unseen.

Where code and documentation disagree, the model follows the code:

* the sub-byte reflector is documented to keep the bits above the order
  (`cpp/include/boost/crc.hpp:872-874`); `reflect_sub_byte` drops them
  (`Reflection.SubByteAgrees` says when this makes no difference);
* the constructors and `reset` are documented to make the new remainder the interim
  remainder and the unmasked output its checksum; both are masked, and `Agreement.ResetShown` and
  `Agreement.ResetChecksum` say exactly when they agree;
* `augmented_crc` is documented for every order above 0; it uses a driver that demands at least 8.

The open point at `cpp/include/boost/crc.hpp:963-964`, whether the augmented divider would
make the same table, is settled by `Tables.EntryByAugmentedDivider`: yes, carry bits included.

## The ownership of `any`

`Any.dfy` models `any` with its owning pointer `content`, and a `Memory` whose ghost fields
say which holders are live and which any objects exist. `Memory.Valid` is single ownership:
each non-empty object owns a live holder of its own and every live holder is owned. Each
operation is written as in the source, temporaries included, keeps `Valid`, and has its whole
effect stated on `Memory.Slots()`, an optional (type, value) for each object. `Delete` demands
a live holder, so nothing is deleted twice, and whatever reads a holder demands that it is live. `AnyPrograms.dfy` does this for whole programs: any
allowed sequence of commands on named objects, self-assignment and self-move included, does to
real objects what `Eval` does to a map of optional values.

`any_cast` of a temporary is documented to leave the operand empty
(`cpp/include/boost/any.hpp:398`); the code only reads it, and so does the model.

## Model

| member | source | states |
|---|---|---|
| Polynomials.RemainderUnique | cpp/include/boost/crc.hpp:533-540 | a dividend has at most one remainder modulo x^n + p, so "the remainder" of the documentation is well defined |
| Polynomials.RunIsRemainder | cpp/include/boost/crc.hpp:563-575 | after k unaugmented steps the register is (r * x^k + w * x^n) modulo the divisor, and no other value is |
| Polynomials.AugRunIsRemainder | cpp/include/boost/crc.hpp:682-691 | after k augmented steps the register is (r * x^k + w) modulo the divisor, and no other value is |
| Dividers.StepByMasks | cpp/include/boost/crc.hpp:565-572 | the masks, tests and shifts of one loop turn are one division step |
| Dividers.AugStepByMasks | cpp/include/boost/crc.hpp:684-688 | the same for the augmented loop |
| Dividers.CrcModuloWordUpdate | cpp/include/boost/crc.hpp:548-576 | the low n bits left are the (unique) remainder of rem * x^k + word * x^n, the word read high-to-low, or low-to-high when reflected |
| Dividers.CrcModuloUpdate | cpp/include/boost/crc.hpp:614-620 | one bit is one division step |
| Dividers.AugmentedCrcModuloWordUpdate | cpp/include/boost/crc.hpp:667-692 | the low n bits left are the (unique) remainder of rem * x^k + word, in the same reading orders |
| Dividers.AugmentedCrcModuloUpdate | cpp/include/boost/crc.hpp:728-734 | one bit is one augmented step |
| Division.RunConcat | cpp/include/boost/crc.hpp:563-575 | dividing two strings in turn is dividing their concatenation |
| Division.RunLow | cpp/include/boost/crc.hpp:563-575 | the low n bits of a wide register depend only on its low n bits and those of the divisor |
| Division.AugRunLow | cpp/include/boost/crc.hpp:682-691 | the same for the augmented divider |
| Division.RunLinear | cpp/include/boost/crc.hpp:535-539 | division is additive over xor in register and message together, carry bits included |
| Division.AugRunLinear | cpp/include/boost/crc.hpp:682-691 | the same for the augmented divider |
| Division.RunFold | cpp/include/boost/crc.hpp:927-934 | up to n bits at once: the shifted register, xored with the composite effect of message bits against leading bits |
| Division.AugRunFold | cpp/include/boost/crc.hpp:1117-1125 | the same for the augmented divider, which also stores the new bits |
| Division.AugmentedRun | cpp/include/boost/crc.hpp:2255-2264 | an augmented run over a message and n zero bits is an unaugmented run over the message, the start remainder multiplied by x^n, carry bits included |
| Division.RunInjective | cpp/include/boost/crc.hpp:563-575 | with an odd polynomial different remainders stay different under the same bits |
| Division.ShortRunsDiffer | cpp/include/boost/crc.hpp:563-575 | with an odd polynomial two different strings of at most n bits drive any remainder apart |
| Division.EvenDivisorSilent | cpp/include/boost/crc.hpp:563-575 | with an even polynomial the n-bit string divisor / x leaves the same remainder as n zero bits |
| Registers.ShiftRightHalves | cpp/include/boost/crc.hpp:563 | a right shift by one halves the value |
| Registers.ShiftLeftDoubles | cpp/include/boost/crc.hpp:571 | a left shift by one doubles the value, less 2^W when the highest bit is lost |
| Registers.ResizeIsModulo | cpp/include/boost/crc.hpp:1118-1119 | a conversion between widths is modulo a power of two |
| Registers.MaskValue | cpp/include/boost/crc.hpp:355-360 | the low-bits mask is 2^count - 1 |
| Reflection.SwapByXor | cpp/include/boost/crc.hpp:390-393 | the test and the xor of one loop turn exchange the two bits |
| Reflection.ReflectUnsigned | cpp/include/boost/crc.hpp:383-397 | the loop ends and leaves the low bits in reverse order, the others as they were, for every width and word length |
| Reflection.ReflectInvolution | cpp/include/boost/crc.hpp:383-397 | reflecting twice gives the value back |
| Reflection.ReflectOptionally | cpp/include/boost/crc.hpp:482-485 | reflects or not, as asked |
| Reflection.MakeByteReflectionTable | cpp/include/boost/crc.hpp:408-418 | the wrap-around loop fills all 256 elements with the reversed index |
| Reflection.ReflectByte | cpp/include/boost/crc.hpp:435-441 | the table element is the reversed byte |
| Reflection.ReflectByteOptionally | cpp/include/boost/crc.hpp:497-499 | reverses the byte or not, as asked |
| Reflection.ReflectSubByte | cpp/include/boost/crc.hpp:455-456 | the low bits reversed, the others lost |
| Reflection.SubByteAgrees | cpp/include/boost/crc.hpp:443-456 | the sub-byte form equals the general form if and only if the byte is below 2^n |
| Reflection.PossibleReflector | cpp/include/boost/crc.hpp:903-906 | the mix-in chosen by order and flag computes `ReflectQ` |
| Reflection.ReflectQLow | cpp/include/boost/crc.hpp:777-877 | every reflecting mix-in reverses the low n bits; those up to 8 bits clear the rest, those above keep it |
| Reflection.ReflectQXor | cpp/include/boost/crc.hpp:777-877 | every mix-in is additive over xor |
| Polynomials.AugmentedIsProduct | cpp/include/boost/crc.hpp:2260-2265 | n zero bits leave exactly r * x^n modulo the divisor |
| Tables.MakePartialXorProductsTable | cpp/include/boost/crc.hpp:966-985 | every element of the table is the effect of its index, direct or reflected |
| Tables.EntryIsRemainder | cpp/include/boost/crc.hpp:912-920 | the low n bits of direct element d are exactly d * x^n modulo the divisor |
| Tables.EntryByAugmentedDivider | cpp/include/boost/crc.hpp:963-964 | the augmented divider, fed d and n zero bits, gives the same element, carry bits included |
| Tables.TablesMirror | cpp/include/boost/crc.hpp:981-982 | the reflected table at the reversed byte holds the reflection of the direct element |
| Tables.EntryLinear | cpp/include/boost/crc.hpp:927-934 | the element of an xor is the xor of the elements |
| Drivers.DirectByte | cpp/include/boost/crc.hpp:1147-1157 | a byte by table is eight division steps, augmented or not |
| Drivers.DirectRun | cpp/include/boost/crc.hpp:1110-1159 | the low n bits after a direct run are those of the bitwise division of all bits, whatever lies above |
| Drivers.MirrorRun | cpp/include/boost/crc.hpp:1201-1253 | with W = n the reflected driver on reflected remainders is the direct driver on reversed bytes, in a mirror, augmented or not |
| Drivers.ReflectedRun | cpp/include/boost/crc.hpp:1201-1253 | with W = n the reflected driver divides low bit first, on reflected remainders |
| Drivers.UpdateDivides | cpp/include/boost/crc.hpp:1497-1508 | in every exact setting the chosen driver divides all bits in reading order, once its register is unreflected |
| Drivers.UpdateConcat | cpp/include/boost/crc.hpp:1497-1508 | two calls leave the same whole register as one call on the joined input, for every driver |
| CrcDriver.DirectAugmentedCrcUpdate | cpp/include/boost/crc.hpp:1110-1128 | the loop's register, and its low n bits as an augmented division of the buffer |
| CrcDriver.DirectCrcUpdate | cpp/include/boost/crc.hpp:1141-1159 | the loop's register, and its low n bits as an unaugmented division of the buffer |
| CrcDriver.ReflectedAugmentedCrcUpdate | cpp/include/boost/crc.hpp:1201-1220 | the loop's register, and with W = n its reverse as a low-bit-first augmented division |
| CrcDriver.ReflectedCrcUpdate | cpp/include/boost/crc.hpp:1234-1253 | the loop's register, and with W = n its reverse as a low-bit-first division |
| CrcDriver.DirectSubByteAugmentedCrcUpdate | cpp/include/boost/crc.hpp:1323-1336 | below 8 bits: the whole register is that of the augmented division of the buffer |
| CrcDriver.DirectSubByteCrcUpdate | cpp/include/boost/crc.hpp:1349-1362 | below 8 bits: the whole register is that of the division of the buffer |
| CrcDriver.ReflectedSubByteAugmentedCrcUpdate | cpp/include/boost/crc.hpp:1407-1422 | below 8 bits: the reversed low bits are the low-bit-first augmented division of the reversed start |
| CrcDriver.ReflectedSubByteCrcUpdate | cpp/include/boost/crc.hpp:1436-1451 | below 8 bits: the reversed low bits are the low-bit-first division of the reversed start |
| CrcDriver.CrcUpdate | cpp/include/boost/crc.hpp:1497-1508 | the driver chosen by order and reflection leaves the register of `Update` |
| CrcDriver.AugmentedCrcUpdate | cpp/include/boost/crc.hpp:1497-1508 | the same for augmented messages |
| Formula.RemainderDivides | cpp/include/boost/crc.hpp:535-539 | the remainder both computers are measured by is start * x^k + message * x^n modulo the divisor, and nothing else is |
| Formula.OutputPlaces | cpp/include/boost/crc.hpp:1891-1897 | the checksum bit by bit: the remainder's bit, from the other end when reflected, xored with the final value; nothing above the order |
| Formula.BasicMeaning | cpp/include/boost/crc.hpp:1891-1897 | the bitwise checksum is the processed remainder of the division, although the register is masked only on output |
| Formula.OptimalShows | cpp/include/boost/crc.hpp:2108-2114 | input reflection cancels output reflection: the checksum and interim remainder are those of the remainder the register stands for |
| Formula.OptimalAgrees | cpp/include/boost/crc.hpp:2092-2114 | in exact settings checksum and interim remainder equal those of the bitwise computer for every message |
| Agreement.AgreementIffCarriesHarmless | cpp/include/boost/crc.hpp:1234-1253 | for all parameters: the computers agree on every message if and only if carries are harmless |
| Agreement.AgreementIffExact | cpp/include/boost/crc.hpp:1234-1253 | for a polynomial below 2^n: agreement on every message if and only if the setting is exact |
| Agreement.UnsoundFails | cpp/include/boost/crc.hpp:1247-1249 | from any register where carries are not harmless, a message is constructed that gives a wrong remainder |
| Agreement.InterimsAgree | cpp/include/boost/crc.hpp:2005-2012 | where carries are harmless the interim remainders agree too |
| Agreement.BasicResumes | cpp/include/boost/crc.hpp:1659-1680 | a bitwise computation can be resumed from its interim remainder in every setting |
| Agreement.ResumptionIffCarriesHarmless | cpp/include/boost/crc.hpp:2005-2039 | a table-driven computation can be resumed at every point with every continuation if and only if carries are harmless |
| Agreement.ResetChecksum | cpp/include/boost/crc.hpp:1682-1704 | after a reset the checksum is the documented, unmasked one if and only if the new remainder and the final xor value hold the same bits above the order, for both computers |
| Agreement.ResetShown | cpp/include/boost/crc.hpp:1682-1704 | after a reset the interim remainder is the given one if and only if that fits the order |
| Detection.BurstUnseen | cpp/include/boost/crc.hpp:1738-1744 | with an even polynomial a burst is constructed that leaves the remainder as it was, from any start and after any number of zero bits |
| Detection.BurstSeen | cpp/include/boost/crc.hpp:1738-1744 | with an odd polynomial a burst of at most n bits changes the remainder, from any start and whatever surrounds it |
| Detection.BurstMeans | cpp/include/boost/crc.hpp:1738-1744 | two strings differ by a burst if and only if no two differing places are k or more apart |
| Detection.BurstsSeenIffOdd | cpp/include/boost/crc.hpp:1738-1744 | all bursts of at most n bits change the checksum if and only if the polynomial is odd |
| Detection.ByteBurstsSeenIffOdd | cpp/include/boost/crc.hpp:1891-1897 | byte messages of any order: all bursts of at most n bits in reading order change the checksum if and only if the polynomial is odd, for crc_basic, and for crc_optimal where carries are harmless |
| Detection.ByteBurstUnseen | cpp/include/boost/crc.hpp:1792-1800 | for an even polynomial two byte messages that differ by such a burst and have one checksum are constructed |
| Detection.FeedsLinear | cpp/include/boost/crc.hpp:1141-1253 | register, data and result of either computer are additive over xor, in every setting |
| Detection.ChecksumsAffine | cpp/include/boost/crc.hpp:2220-2230 | the checksum of the xor of three messages of one length is the xor of their checksums, by either computer and in every setting |
| Sessions.OneMoreOperation | cpp/include/boost/crc.hpp:2033-2100 | a run is its operations one after the other: feeding appends to the input, a reset forgets it |
| Sessions.OnlyInputCounts | cpp/include/boost/crc.hpp:2033-2100 | after any run of pieces and resets the whole register is that of one pass over the input since the last reset, for both computers |
| Sessions.Indistinguishable | cpp/include/boost/crc.hpp:2033-2114 | with harmless carries both computers show the same checksum and interim remainder at every point of every run |
| AugmentedMessages.RunsChain | cpp/include/boost/crc.hpp:2250-2255 | reading a block in several runs, each started from the value returned before, gives the value of one run |
| AugmentedMessages.ZeroTrailer | cpp/include/boost/crc.hpp:2260-2265 | n/8 zero bytes after the data give the unaugmented remainder from r * x^n |
| AugmentedMessages.AugmentedEqualsUnaugmented | cpp/include/boost/crc.hpp:2255-2265 | for n a multiple of 8, augmented_crc of the zero-extended data is the plain checksum of the data, by either computer |
| AugmentedMessages.ZeroStartsCorrespond | cpp/include/boost/crc.hpp:2283-2294 | zero start remainders correspond |
| AugmentedMessages.ZeroIffTrailer | cpp/include/boost/crc.hpp:2266-2271 | for n a multiple of 8, data and trailer give zero if and only if the trailer is the data's own checksum in big-endian order |
| CrcBasicComputer.CrcBasic.constructor | cpp/include/boost/crc.hpp:1553-1569 | every argument is kept in its field, the register holds the initial remainder, the history is empty |
| CrcBasicComputer.CrcBasic.GetInterimRemainder | cpp/include/boost/crc.hpp:1673-1680 | the remainder of all bits since the last reset, masked |
| CrcBasicComputer.CrcBasic.Reset | cpp/include/boost/crc.hpp:1696-1704 | earlier input is forgotten |
| CrcBasicComputer.CrcBasic.ResetToInitial | cpp/include/boost/crc.hpp:1719-1726 | the same, back to the initial remainder among the parameters, which no operation changes |
| CrcBasicComputer.ChecksumOfBuffer | cpp/include/boost/crc.hpp:1553-1897 | from constructor arguments to checksum: a computer fed a buffer gives the bitwise checksum of the given formula, bytes read in the order the caller asked for |
| CrcBasicComputer.InterimAfterReset | cpp/include/boost/crc.hpp:1719-1726 | after any input, reset() brings back the remainder given to the constructor |
| CrcBasicComputer.CrcBasic.ProcessBit | cpp/include/boost/crc.hpp:1736-1744 | one bit is appended to the divided history |
| CrcBasicComputer.CrcBasic.ProcessBits | cpp/include/boost/crc.hpp:1761-1778 | the low bits are appended from the highest place down, the others ignored |
| CrcBasicComputer.CrcBasic.ProcessByte | cpp/include/boost/crc.hpp:1792-1800 | eight bits are appended in the order of the input-reflection parameter |
| CrcBasicComputer.CrcBasic.ProcessBlock | cpp/include/boost/crc.hpp:1826-1838 | all bytes of the range are appended in turn |
| CrcBasicComputer.CrcBasic.ProcessBytes | cpp/include/boost/crc.hpp:1862-1874 | all bytes of the buffer are appended in turn |
| CrcBasicComputer.CrcBasic.Checksum | cpp/include/boost/crc.hpp:1889-1897 | the processed remainder of polynomial division over the whole history |
| CrcBasicComputer.BitGroupsCompose | cpp/include/boost/crc.hpp:1761-1778 | a group of bits may be split at any place |
| CrcOptimalComputer.CrcOptimal.constructor | cpp/include/boost/crc.hpp:1926-1932 | starts from the formula's remainder, possibly reflected, with no input |
| CrcOptimalComputer.CrcOptimal.WithRemainder | cpp/include/boost/crc.hpp:1926-1932 | starts from the given remainder |
| CrcOptimalComputer.CrcOptimal.GetInterimRemainder | cpp/include/boost/crc.hpp:2005-2012 | unreflected and masked; where carries are harmless, the remainder of the division |
| CrcOptimalComputer.CrcOptimal.Reset | cpp/include/boost/crc.hpp:2033-2039 | earlier input is forgotten |
| CrcOptimalComputer.CrcOptimal.ProcessBytes | cpp/include/boost/crc.hpp:2092-2100 | the bytes are appended to the input |
| CrcOptimalComputer.CrcOptimal.ProcessByte | cpp/include/boost/crc.hpp:2052-2058 | the byte is appended to the input |
| CrcOptimalComputer.CrcOptimal.ProcessBlock | cpp/include/boost/crc.hpp:2071-2079 | the bytes of the range are appended to the input |
| CrcOptimalComputer.CrcOptimal.Submit | cpp/include/boost/crc.hpp:2140-2146 | the function-object form of ProcessByte |
| CrcOptimalComputer.CrcOptimal.Checksum | cpp/include/boost/crc.hpp:2108-2114 | where carries are harmless, the checksum of the bitwise computer and the processed remainder of the division of all input |
| CrcOptimalComputer.CrcOptimal.Result | cpp/include/boost/crc.hpp:2169-2175 | the function-object form of Checksum, with the same promise |
| CrcOptimalComputer.Crc | cpp/include/boost/crc.hpp:2220-2230 | where carries are harmless, the processed remainder of polynomial division of the buffer |
| CrcOptimalComputer.AugmentedCrcOf | cpp/include/boost/crc.hpp:2282-2294 | the remainder of start * x^k + data modulo the divisor, with no bit above the order |
| AnyOwnership.Memory.Clone | cpp/include/boost/any.hpp:277-280 | a new live holder with equal type and value |
| AnyOwnership.Memory.Delete | cpp/include/boost/any.hpp:119-122 | demands a live holder or null, and ends its life |
| AnyOwnership.Any.Empty | cpp/include/boost/any.hpp:47-50 | a new empty object, all else unchanged |
| AnyOwnership.Any.FromValue | cpp/include/boost/any.hpp:58-63 | a new object with the given type and value |
| AnyOwnership.Any.Copy | cpp/include/boost/any.hpp:78-81 | a new object equal to the other, with a holder of its own |
| AnyOwnership.Any.Move | cpp/include/boost/any.hpp:90-94 | the value passes to the new object, the other is empty, nothing is allocated |
| AnyOwnership.Any.Destroy | cpp/include/boost/any.hpp:119-122 | the object and its holder are gone, no other object is touched |
| AnyOwnership.Any.Swap | cpp/include/boost/any.hpp:130-136 | the two values are exchanged, also when the two are one |
| AnyOwnership.Any.CopyAssign | cpp/include/boost/any.hpp:147-151 | the target takes the source's value, self-assignment included, and single ownership is kept |
| AnyOwnership.Any.MoveAssign | cpp/include/boost/any.hpp:183-188 | the target takes the value and the source is empty; a self-move empties the object |
| AnyOwnership.Any.AssignValue | cpp/include/boost/any.hpp:200-209 | the target takes the given value |
| AnyOwnership.Any.Clear | cpp/include/boost/any.hpp:222-225 | the object is empty and its holder released |
| AnyOwnership.Any.IsEmpty | cpp/include/boost/any.hpp:216-219 | true exactly for an empty object |
| AnyOwnership.Any.Type | cpp/include/boost/any.hpp:233-236 | asked of a living object, whose holder is live: the type of the value, or the type of void |
| AnyOwnership.AnyCastPointer | cpp/include/boost/any.hpp:339-345 | a pointer to the live held value exactly when the operand is not null and the type matches |
| AnyOwnership.AnyCast | cpp/include/boost/any.hpp:358-366 | the held value exactly when the type matches, otherwise bad_any_cast |
| AnyOwnership.StoreThroughCast | cpp/include/boost/any.hpp:339-345 | a write through the pointer changes that object and no copy of it |
| AnyOwnership.SingleOwnership | cpp/include/boost/any.hpp:78-151 | no two objects share a holder, each non-empty one owns a live one, every live one is owned |
| AnyOwnership.HoldersCounted | cpp/include/boost/any.hpp:78-151 | as many live holders as non-empty objects, and none once all objects are destroyed |
| AnyPrograms.Program.Execute | cpp/include/boost/any.hpp:78-225 | the values of all named objects after each kind of command, self-assignment and self-move included, and the agreement with `After` |
| AnyPrograms.OthersKept | cpp/include/boost/any.hpp:78-225 | a command changes no name but those it writes |
| AnyPrograms.ConstructMeans | cpp/include/boost/any.hpp:47-63 | a new object is empty or holds the given value |
| AnyPrograms.AssignMeans | cpp/include/boost/any.hpp:200-225 | value assignment, clear and destruction of one name |
| AnyPrograms.CopyMeans | cpp/include/boost/any.hpp:147-151 | copies leave target and source at the source's old value |
| AnyPrograms.MoveMeans | cpp/include/boost/any.hpp:183-188 | moves give the target the source's old value and empty the source; a self-move empties |
| AnyPrograms.SwapMeans | cpp/include/boost/any.hpp:130-136 | the two values are exchanged |
| AnyPrograms.StoreMeans | cpp/include/boost/any.hpp:339-345 | a store takes effect exactly when the type matches |
| AnyPrograms.EvalOne | cpp/include/boost/any.hpp:78-225 | no commands change nothing, one command is its own effect |
| AnyPrograms.EvalConcat | cpp/include/boost/any.hpp:78-225 | two sequences in turn are their concatenation, in what they allow and in what they do |
| AnyPrograms.CopyIndependent | cpp/include/boost/any.hpp:78-81 | writing to a copy leaves the source alone, and destroying the copy restores everything |
| AnyPrograms.RoundTrips | cpp/include/boost/any.hpp:130-188 | swapping twice, and moving away and back, restore everything |
| AnyPrograms.Program.Run | cpp/include/boost/any.hpp:78-225 | so does every allowed sequence of commands, and single ownership holds after it |

## Left out

- Getters of stored parameters, copying and assigning whole computers: they return or copy a field.
- `uint_t` and the predefined types: `boost/integer.hpp` is not part of this model, so the register width is a parameter of every statement, and the dividend counter of the table loop has one bit more than its words; the predefined types have orders 16 and 32 and are exact settings when their registers have those widths.
- Static tables: the tables for bytes and partial products are built by the same loops at each call instead of once.
- Null buffers and pointer arithmetic: a buffer is an array and an address an index into it; a null buffer with count 0 is an empty range.
- Shifts by a negative amount in `augmented_crc` below order 8: the driver's own precondition excludes them.
- Template dispatch, exceptions from allocation, and conversions between types of different holders in `any`: a type is a name and a value an integer.
- The declaration-only headers of the messaging system, and headers without algorithms.
