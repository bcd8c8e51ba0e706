# SOLID.js in Dafny

`SOLID.js` is a teaching file. It shows the five SOLID design principles through small JavaScript classes. This project models the three parts of it whose behaviour can be stated and proved:

- **Journal** (Single Responsibility). A log that numbers each entry `"<n>: <text>"` from a counter. The counter is never decremented, so a number is never reused. Entries can be removed by position and the whole journal can be serialised as lines. This is the class `SingleResponsibility.Journal`, with a `seq<string>` field and a `nat` counter. Its invariant `Numbered` says three things: every entry reads back as a number and a text, the numbers are between 1 and `count`, and they rise strictly from the first entry to the last.
- **Shapes and the area calculator** (Open/Closed). This part is pure. The datatype `OpenClosed.Shape` has three cases: `Abstract` (the base class, whose `area` throws), `Rectangle` and `Circle`. `Area` returns a `Result`, whose failure case stands for the thrown error. `TotalArea` is the `reduce` fold: it starts at 0, adds areas from left to right, and stops at the first failure.
- **Switch** (Dependency Inversion). `DependencyInversion.Switch` holds an `isOn` flag and a reference to a `Device`. The device is modelled only by the sequence of `On`/`Off` calls it has received. Each press sends the call that matches the current state and then flips the flag. The pure function `Presses` gives the calls made by `n` presses.

`Strings` models the two JavaScript built-ins the journal uses:

- decimal printing of the counter in a template literal (SOLID.js:21);
- `Array.prototype.join` (SOLID.js:32).

It also defines `Split` and `FirstIndex`. The program does not use them: `Split` is the model's own inverse of `join`, and `FirstIndex` is used to read an entry back.

Numbers are Dafny's unbounded `nat` and `real`. `PI` is the decimal that `Math.PI` prints, and the proofs rely only on `PI > 0`.

The `Rectangle` and `Circle` constructors do not validate their dimensions, so the datatype accepts any real. `WellFormed` picks out dimensions that guarantee a non-negative area: every circle, because the radius is squared, and a rectangle with no negative side. It is a sufficient condition only: `Rectangle(-2.0, -3.0)` also has a non-negative area, 6.

## Model

| member | source | states |
|---|---|---|
| Strings.DecimalString | SOLID.js:21 | the text of `${count}` is a canonical decimal numeral (non-empty, all digits, no leading zero except for 0) whose value is the count |
| Strings.DecimalOfParse | SOLID.js:21 | printing the value of a canonical numeral gives that numeral back, so printing and parsing are inverse on canonical numerals |
| Strings.Join | SOLID.js:32 | `join` of no parts is `""` and of one part is that part; for a non-empty list the first part is a prefix of the result and the last part a suffix |
| Strings.JoinSnoc | SOLID.js:32 | joining a non-empty list with one more element appended gives the old join, the separator, then that element |
| Strings.SplitJoin | SOLID.js:32 | splitting the join at the separator gives the parts back, for a non-empty list whose parts do not contain the separator |
| SingleResponsibility.FormatEntry | SOLID.js:21 | the entry `${count}: ${text}` reads back as exactly the number and the text it was made from, so its creation number is `count` |
| SingleResponsibility.FormatParsedEntry | SOLID.js:21 | a string that reads as an entry is the entry built from the number and text it reads as (with the contract of FormatEntry this is an if-and-only-if) |
| SingleResponsibility.NumberedBound | SOLID.js:13-27 | when entry numbers rise strictly and lie in 1..count, there are at most `count` entries |
| SingleResponsibility.NumberedAdd | SOLID.js:18-22 | appending entry number count+1 keeps the invariant with the counter one larger |
| SingleResponsibility.NumberedRemove | SOLID.js:24-27 | removing any position keeps the invariant with the counter unchanged |
| SingleResponsibility.RemoveAt | SOLID.js:26 | `splice(index, 1)` with an index that is not negative: below the length, the result is one shorter, keeps the elements before `index`, shifts the ones after it down by one, and loses exactly that element from the multiset; at or past the length, the list is unchanged |
| SingleResponsibility.Journal.constructor | SOLID.js:13-16 | a new journal has no entries, a count of 0, and satisfies the invariant |
| SingleResponsibility.Journal.AddEntry | SOLID.js:18-22 | the count goes up by one; the entries are the old entries plus exactly `"<new count>: <text>"`; the last entry carries number `count`, which is larger than the number of every earlier entry; the invariant and `|entries| <= count` hold |
| SingleResponsibility.Journal.RemoveEntry | SOLID.js:24-27 | the entries become RemoveAt(old entries, index); the count is unchanged; the invariant and `|entries| <= count` hold |
| SingleResponsibility.Journal.ToString | SOLID.js:29-33 | an empty journal gives `""`; a single entry gives that entry |
| SingleResponsibility.ToStringSplit | SOLID.js:29-33 | when the journal has entries and none contains a line break, splitting its text at line breaks gives back the entries |
| OpenClosed.Area | SOLID.js:66-96 | fails with the not-implemented error exactly for the base shape; a rectangle's area is width × height; a circle's is PI × radius²; the area is non-negative for well-formed dimensions |
| OpenClosed.Plus | SOLID.js:109 | one step `total + shape.area()` succeeds exactly when both operands do, and then adds them; a failed total is passed on unchanged, and otherwise a failed area is the result |
| OpenClosed.TotalArea | SOLID.js:108-110 | the fold fails exactly when some shape is the base shape, and then with the not-implemented error; otherwise the total is non-negative when every shape is well-formed |
| OpenClosed.TotalAreaIsSum | SOLID.js:108-110 | when no shape is abstract, the fold equals the plain sum of the areas, defined independently from right to left |
| OpenClosed.TotalAreaConcat | SOLID.js:108-110 | the total of `s + t` is the total of `s` plus the total of `t`, and fails if either fails; taking `t = [x]` gives `totalArea(shapes + [x]) == totalArea(shapes) + area(x)`, with `TotalArea([]) == Success(0)` as the base case |
| OpenClosed.TotalAreaSwap | SOLID.js:108-110 | `TotalArea(s + t) == TotalArea(t + s)`: order independence for two parts, including two single shapes |
| OpenClosed.TotalAreaPermutation | SOLID.js:108-110 | any two lists with the same multiset of shapes have the same total, or both fail |
| OpenClosed.TwoShapesExample | SOLID.js:73-110 | a 2×3 rectangle and a unit circle total 6 + PI |
| DependencyInversion.Device.TurnOn | SOLID.js:168-170 | the device records one `On` call |
| DependencyInversion.Device.TurnOff | SOLID.js:172-174 | the device records one `Off` call |
| DependencyInversion.PressCall | SOLID.js:190-194 | a press calls `On` exactly when the switch is off and `Off` exactly when it is on |
| DependencyInversion.Presses | SOLID.js:188-196 | n presses make n calls; call i is `Off` exactly when the switch was on before that press, which is the start state flipped i times |
| DependencyInversion.PressesAlternate | SOLID.js:188-196 | two consecutive presses never make the same call |
| DependencyInversion.PressesSnoc | SOLID.js:188-196 | one more press appends the call for the state reached so far |
| DependencyInversion.PressTwice | SOLID.js:188-196 | two presses restore the original state and make `[On, Off]` from off and `[Off, On]` from on |
| DependencyInversion.Switch.constructor | SOLID.js:178-186 | a new switch is off, holds the given device, has made no calls on it, and satisfies its invariant |
| DependencyInversion.Switch.Press | SOLID.js:188-196 | `isOn` is negated; the device receives exactly one call, `On` if the switch was off and `Off` if it was on; the invariant (state and calls are those of the presses made so far) is preserved |

## Left out

- `JournalPersistence.saveToFile` / `loadFromFile` (SOLID.js:38-59) only print to the console.
- `Printer`, `Scanner`, `MultiFunctionPrinter` and `BasicPrinter` (SOLID.js:140-162) only throw or print.
- `Bird`, `Duck` and `Ostrich` (SOLID.js:117-135) return constant strings or throw. There is nothing further to state about them.
- `LightBulb` (SOLID.js:167-175) prints to the console. It appears only as the calls recorded by `Device`.
- The top-level demo (SOLID.js:199-203) is left out. `PressTwice` states what it shows.
- The `AreaCalculator` object only stores its `shapes` array, so `TotalArea` takes that array as its argument.
- SingleResponsibility.Journal.RemoveEntry: the index is a `nat`. JavaScript's handling of a negative `splice` start (counting from the end) and of a non-integer index is not modelled.
- SingleResponsibility.Journal.AddEntry: the counter is an unbounded `nat`. The loss of precision of a JavaScript number beyond 2^53 is not modelled.
- SingleResponsibility.FormatEntry: `text` is taken as a `string`. The template literal accepts any value and converts it to text. For example, `addEntry()` with no argument stores `"1: undefined"`. That conversion is not modelled.
- SingleResponsibility.ToStringSplit: the round trip through `Split` is stated only when no entry text contains a line break. When one does, `split` would cut that entry in two.
- OpenClosed.Area: uses real arithmetic with `PI` as the decimal value of `Math.PI`. IEEE double rounding of `width * height` and `Math.PI * radius ** 2` is not modelled.
- OpenClosed.TotalAreaPermutation: the additions of the fold (`total + shape.area()`) are exact real additions in the model. IEEE addition is not associative, so in the program a reordered list can give a slightly different total. For example, the areas 0.1, 0.2, 0.3 total 0.6000000000000001 in that order and 0.6 in reverse. Order independence therefore holds only for exact arithmetic.
- OpenClosed.TotalAreaSwap: the same holds for swapping the two parts of a list. Only the swap of two single shapes carries over to the program, because IEEE addition is commutative.
- A value that is not a shape at all, such as one without an `area` method, cannot be put in the list. The datatype admits only the three kinds of shape.
- The `Switch` invariant assumes the switch is the device's only caller after the switch is constructed. `Press` always states its one-call effect, but it preserves the invariant only when the invariant held beforehand.
