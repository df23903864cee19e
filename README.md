# Books and vehicles: records, comparators, exchange sort and record files

A Dafny model of the sorting core of three small Java programs:

- `Knjiga` (a book: `id`, `naslov` = title, `autor` = author) and its natural
  order, author then title (`Books`);
- the comparator strategies for books: by title, by author, natural, reversal
  (`ObrnutiKomparator`), sequential composition (`KompozitniKomparator`) and the
  fixed author-then-title composite (`BookComparators`);
- the in-place exchange sort `sortirajNiz` and the sort-option switch of the
  book program's `main` (`ExchangeSort`);
- the count-prefixed book file read by `ucitajKnjige` and written by
  `sacuvajKnjige` / `snimiKnjige` (`BookFile`), on top of a token-stream reader
  (`Tokens`);
- `Automobil` (a vehicle) with its private odometer changed only by `vozi`,
  its natural order, `GodisteIKmKomparator`, and the vehicle file read by
  `ucitajAutomobile` (`Cars`);
- Java's `String.compareTo`, `String.CASE_INSENSITIVE_ORDER` and the decimal
  rendering of an `int`, which the orderings and `toString` depend on
  (`JavaText`).

The book is an immutable value, so it is a datatype: the constructor and the
getters `getId`, `getNaslov`, `getAutor` are the datatype constructor and its
destructors. A comparator is a datatype of strategies interpreted by
`Compare`; every strategy is proved to be a total preorder, so the exchange
sort's sortedness needs no precondition. `SortArray` works in place on an
`array<Book>` with the source's outer loop, its inner loop being the method
`RaiseLargest`, and is proved equal to
`ExchangeSorted`, a function making the same comparisons and swaps; the
properties of the result (a permutation, sorted, unchanged when short,
unchanged by replacing the comparator with one that finds the same pairs out
of order) are lemmas on that function. The vehicle is a class: `model`,
`godiste` (year) and `motor` (engine) are constants, `boja` (colour) and
`kilometraza` (odometer) are fields.

A file is a sequence of tokens, `Num(int)`, `Dec(real)` or `Text(string)`,
read in order by a single reader: `readInt` accepts a `Num`, `readDouble` a
`Num` or a `Dec`, `readLine` a `Text`. Any other token is a type mismatch and
a missing token is the end of input; either one fails the whole read, and no
partial array is returned. Whether a file can be opened for reading is an
`Option` (no tokens when it cannot), and whether it can be opened for writing
is a boolean parameter. A negative leading count fails too, because the source
then cannot allocate its array.

Two notes on the programs:

- The menu text for option 2 (KnjigeProgramNastavak.java:27) says "sort by
  descending book id". The code (line 40) sorts with
  `ObrnutiKomparator(PrirodniKomparator)`, which is descending author and then
  title. `ChoiceFor(2)` follows the code.
- The vehicle program has no writer, so there is no vehicle round trip.
  `CarsFileReads` states instead that a file laid out as `ucitajAutomobile`
  expects reads back as its vehicles, whatever text each group's skipped line holds
  and whether each power is written as an integer or a decimal fraction.

## Model

| member | source | states |
|---|---|---|
| JavaText.CompareTo | src/spa2/vezbe/sort/knjige/KnjigeProgram.java:49 | `String.compareTo`: the character difference at the first differing index, or the length difference when one string is a prefix of the other; its properties are the `CompareTo…` lemmas below |
| JavaText.CompareToFirstDifference | src/spa2/vezbe/sort/knjige/KnjigeProgram.java:49 | at the first index where two strings differ, `compareTo` is the difference of the characters there |
| JavaText.CompareToCommonPrefix | src/spa2/vezbe/sort/knjige/KnjigeProgram.java:53 | when one string is a prefix of the other, `compareTo` is the difference of the lengths |
| JavaText.CompareToAntisymmetric | src/spa2/vezbe/sort/knjige/KnjigeProgramNastavak.java:170 | swapping the strings negates `compareTo` exactly |
| JavaText.CompareToZeroIffEqual | src/spa2/vezbe/sort/knjige/KnjigeProgram.java:52 | `compareTo` is 0 exactly for equal strings, so the title is consulted exactly when the authors are equal |
| JavaText.CompareToTransitive | src/spa2/vezbe/sort/knjige/KnjigeProgramNastavak.java:180 | "not after" under `compareTo` is transitive |
| JavaText.CompareIgnoreCaseIsCompareLowered | src/spa2/vezbe/sort/automobili/AutomobiliProgram.java:64 | the case-insensitive order, which maps differing characters to upper and then lower case, equals `compareTo` of the lower-cased strings |
| JavaText.CompareIgnoreCaseAntisymmetric | src/spa2/vezbe/sort/automobili/AutomobiliProgram.java:63-64 | swapping the strings negates the case-insensitive result |
| JavaText.CompareIgnoreCaseZeroIff | src/spa2/vezbe/sort/automobili/AutomobiliProgram.java:66-67 | the case-insensitive result is 0 exactly when the strings agree ignoring case |
| JavaText.CompareIgnoreCase | src/spa2/vezbe/sort/automobili/AutomobiliProgram.java:64 | `String.CASE_INSENSITIVE_ORDER`: differing characters are compared after mapping to upper and then lower case; its properties are the `CompareIgnoreCase…` lemmas above |
| JavaText.IntToString | src/spa2/vezbe/sort/knjige/KnjigeProgram.java:39 | the decimal rendering of an `int` in `id + " "`: its digits, after a `-` when negative; `IntToStringParses` states that it reads back as the int |
| JavaText.IntToStringParses | src/spa2/vezbe/sort/knjige/KnjigeProgram.java:39 | the decimal rendering of an int is a numeral without spaces that parses back to the int |
| Books.Book.ToString | src/spa2/vezbe/sort/knjige/KnjigeProgram.java:35-41 | the id, a space, the author, ": " and the title; `ToStringLayout` states what can be read back from it |
| Books.Book.CompareTo | src/spa2/vezbe/sort/knjige/KnjigeProgram.java:43-59 | the author comparison, and the title comparison when the authors compare as 0; its properties are the `Books.CompareTo…` lemmas below |
| Books.CompareToAuthorThenTitle | src/spa2/vezbe/sort/knjige/KnjigeProgram.java:43-59 | different authors decide by the author comparison (non-zero); equal authors decide by the title comparison |
| Books.CompareToZeroIff | src/spa2/vezbe/sort/knjige/KnjigeProgram.java:49-57 | two books compare as 0 exactly when author and title are equal, whatever their ids |
| Books.CompareToAntisymmetric | src/spa2/vezbe/sort/knjige/KnjigeProgram.java:43-58 | `a.compareTo(b) == -b.compareTo(a)` |
| Books.CompareToTransitive | src/spa2/vezbe/sort/knjige/KnjigeProgram.java:48-57 | the natural order's "not after" is transitive |
| Books.ToStringLayout | src/spa2/vezbe/sort/knjige/KnjigeProgram.java:35-41 | `toString` starts with the id in decimal, ended by the first space and readable back as the id, and ends with the title |
| BookComparators.Compare | src/spa2/vezbe/sort/knjige/KnjigeProgramNastavak.java:165-229 | the result of each comparator class: by title, by author, natural, negated, primary-then-secondary, and author then title; its properties are the lemmas below |
| BookComparators.ReversedNegates | src/spa2/vezbe/sort/knjige/KnjigeProgramNastavak.java:205-207 | reversal returns the negated result; reversing twice gives every original result back |
| BookComparators.CompositeCases | src/spa2/vezbe/sort/knjige/KnjigeProgramNastavak.java:222-228 | the composite returns the primary result when it is non-zero, the secondary result otherwise |
| BookComparators.CompositeAssociative | src/spa2/vezbe/sort/knjige/KnjigeProgramNastavak.java:211-229 | `(A;B);C` and `A;(B;C)` give the same result on every pair |
| BookComparators.AuthorThenTitleIsNatural | src/spa2/vezbe/sort/knjige/KnjigeProgramNastavak.java:232-236 | the author-then-title composite gives the same result as `Knjiga.compareTo` |
| BookComparators.CompareSelf | src/spa2/vezbe/sort/knjige/KnjigeProgramNastavak.java:165-192 | every strategy compares a book with itself as 0 |
| BookComparators.CompareAntisymmetric | src/spa2/vezbe/sort/knjige/KnjigeProgramNastavak.java:196-228 | every strategy, however nested, is exactly antisymmetric |
| BookComparators.CompareTransitive | src/spa2/vezbe/sort/knjige/KnjigeProgramNastavak.java:194-229 | every strategy's "not after" is transitive, so every strategy is a total preorder |
| ExchangeSort.SortArray | src/spa2/vezbe/sort/knjige/KnjigeProgramNastavak.java:150-161 | the array afterwards is `ExchangeSorted` of its old contents: a permutation of them, sorted by the comparator, and untouched when of length 0 or 1 |
| ExchangeSort.RaiseLargest | src/spa2/vezbe/sort/knjige/KnjigeProgramNastavak.java:153-159 | the inner loop for end index `i` leaves the array as `InnerPass` of its old contents: the same comparisons and swaps, `j` from 0 up to `i - 1` |
| ExchangeSort.ExchangeSorted | src/spa2/vezbe/sort/knjige/KnjigeProgramNastavak.java:150-161 | the comparisons and swaps of `sortirajNiz` on a sequence, of the same length as the input; the lemmas below state that it is a sorted permutation |
| ExchangeSort.ExchangeSortedPermutes | src/spa2/vezbe/sort/knjige/KnjigeProgramNastavak.java:155-157 | for every comparator the result holds the same books as often as the input |
| ExchangeSort.InnerPassRaisesLargest | src/spa2/vezbe/sort/knjige/KnjigeProgramNastavak.java:153-159 | when no book up to `i` comes after one beyond it (which the outer loop keeps), after the inner loop for `i` no book below `i` comes after the book at `i`, nothing beyond `i` has moved, and still no book up to `i` comes after one beyond it |
| ExchangeSort.ExchangeSortedSorts | src/spa2/vezbe/sort/knjige/KnjigeProgramNastavak.java:152-160 | for every comparator, no book of the result comes after a later one |
| ExchangeSort.ShortSequenceUnchanged | src/spa2/vezbe/sort/knjige/KnjigeProgramNastavak.java:152 | sequences of length 0 or 1 come back unchanged |
| ExchangeSort.ExchangeSortedSameDecisions | src/spa2/vezbe/sort/knjige/KnjigeProgramNastavak.java:154 | two comparators that find the same pairs out of order sort every sequence identically |
| ExchangeSort.ReversedTwiceSortsAlike | src/spa2/vezbe/sort/knjige/KnjigeProgramNastavak.java:196-208 | sorting with a doubly reversed comparator gives the same sequence as the comparator itself |
| ExchangeSort.CompositeNestingSortsAlike | src/spa2/vezbe/sort/knjige/KnjigeProgramNastavak.java:216-228 | `(A;B);C` and `A;(B;C)` sort every sequence identically |
| ExchangeSort.TolkienByAuthorThenTitle | src/spa2/vezbe/sort/knjige/KnjigeProgramNastavak.java:46 | two Tolkien books sorted by author then title come out "Hobbit" before "Rings" |
| ExchangeSort.NotStable | src/spa2/vezbe/sort/knjige/KnjigeProgramNastavak.java:153-158 | the exchange sort is not stable: two books equal by author come out in the opposite order |
| ExchangeSort.ChoiceFor | src/spa2/vezbe/sort/knjige/KnjigeProgramNastavak.java:35-50 | options 1 to 4 choose a sort, option 1 alone the library sort; every other option leaves the array unsorted |
| ExchangeSort.OptionTwoSortsDescending | src/spa2/vezbe/sort/knjige/KnjigeProgramNastavak.java:39-41 | option 2 yields a permutation in which no book comes before a later one in the natural order |
| ExchangeSort.OptionFourSortsNaturally | src/spa2/vezbe/sort/knjige/KnjigeProgramNastavak.java:45-47 | option 4 yields a permutation in natural order |
| ExchangeSort.ApplyOption | src/spa2/vezbe/sort/knjige/KnjigeProgramNastavak.java:34-50 | a wrong option leaves the array unchanged; options 2 to 4 run the exchange sort with their comparator; option 1 leaves a permutation in natural order |
| Tokens.ReadInt | src/spa2/vezbe/sort/automobili/AutomobiliProgram.java:158 | `readInt` succeeds exactly on a number line, giving its value and moving one line on; on any other line it fails with a wrong type, past the end with end of input |
| Tokens.ReadDouble | src/spa2/vezbe/sort/automobili/AutomobiliProgram.java:160 | `readDouble` succeeds exactly on a number or decimal line, moving one line on; otherwise it fails like `readInt` |
| Tokens.ReadLine | src/spa2/vezbe/sort/automobili/AutomobiliProgram.java:157 | `readLine` succeeds exactly on a text line, giving its text and moving one line on; otherwise it fails like `readInt` |
| Tokens.ReadGroups | src/spa2/vezbe/sort/knjige/KnjigeProgramNastavak.java:84-97 | the counted reading loop: `n` groups read one after another, each from where the last ended; a success holds the records already read followed by exactly `n` more |
| Tokens.ReadGroupsFailsAt | src/spa2/vezbe/sort/automobili/AutomobiliProgram.java:153-163 | when the groups before one read well and that group fails, the whole read fails with that group's error, whatever the count still asks for |
| Tokens.ReadCounted | src/spa2/vezbe/sort/knjige/KnjigeProgram.java:111-131 | a counted file fails on a missing or non-numeric count and on a negative count; a successful read has exactly as many records as the leading count; with `ReadGroupsFailsAt`, the first failing group fails it all |
| BookFile.ReadBook | src/spa2/vezbe/sort/knjige/KnjigeProgramNastavak.java:87-92 | one book group is an int and two lines, and reading it moves past exactly three values |
| BookFile.LoadedBooks | src/spa2/vezbe/sort/knjige/KnjigeProgramNastavak.java:68-71 | no books when the file cannot be opened |
| BookFile.BooksRoundTrip | src/spa2/vezbe/sort/knjige/KnjigeProgram.java:160-167 | reading the written layout, whatever follows it, rebuilds equal books in the same order |
| BookFile.TruncatedFileFails | src/spa2/vezbe/sort/knjige/KnjigeProgramNastavak.java:84-97 | a written file cut short after its count fails with end of input |
| BookFile.MalformedIdFails | src/spa2/vezbe/sort/knjige/KnjigeProgramNastavak.java:84-89 | after any number of well-formed groups fewer than the count, a group whose id is not a number fails the whole read with a wrong type |
| BookFile.LoadBooks | src/spa2/vezbe/sort/knjige/KnjigeProgramNastavak.java:66-105 | the new array holds exactly the books of the file, in file order; the errors are those of the file |
| BookFile.WriteBooks | src/spa2/vezbe/sort/knjige/KnjigeProgramNastavak.java:132-140 | emits the length, then id, title and author of every book in array order |
| BookFile.SaveBooks | src/spa2/vezbe/sort/knjige/KnjigeProgramNastavak.java:121-148 | returns false and writes nothing when the file cannot be opened; otherwise writes the layout, which reads back as the array |
| Cars.Car.constructor | src/spa2/vezbe/sort/automobili/AutomobiliProgram.java:24-30 | every field holds its argument |
| Cars.Car.Drive | src/spa2/vezbe/sort/automobili/AutomobiliProgram.java:38-49 | a distance `<= 0` is rejected with an invalid-argument result and changes nothing; otherwise the odometer grows by exactly the distance; the colour is unchanged and the other fields are constants |
| Cars.OdometerHistory | src/spa2/vezbe/sort/automobili/AutomobiliProgram.java:32-35 | the odometer reads the constructor's value through a rejected drive and that value plus the distance after an accepted one |
| Cars.Car.Kilometers | src/spa2/vezbe/sort/automobili/AutomobiliProgram.java:32-35 | `getKilometraza`: the odometer, which stands for the source's only public read access to the private field; `OdometerHistory` states how it moves |
| Cars.Car.CompareTo | src/spa2/vezbe/sort/automobili/AutomobiliProgram.java:60-74 | the case-insensitive model comparison, 0 for the same string, and the year difference when it is 0; its properties are the `Cars.CompareTo…` lemmas below |
| Cars.CompareToModelThenYear | src/spa2/vezbe/sort/automobili/AutomobiliProgram.java:60-74 | model names that differ ignoring case decide (non-zero); otherwise the result is the year difference |
| Cars.CompareToAntisymmetric | src/spa2/vezbe/sort/automobili/AutomobiliProgram.java:61-73 | the natural order is exactly antisymmetric and compares a car with itself as 0 |
| Cars.CompareToZeroIff | src/spa2/vezbe/sort/automobili/AutomobiliProgram.java:64-69 | two cars compare as 0 exactly when the models agree ignoring case and the years agree |
| Cars.CompareYearThenOdometer | src/spa2/vezbe/sort/automobili/AutomobiliProgram.java:198-217 | `GodisteIKmKomparator`: the later year first, then the lower odometer; its properties are the two lemmas below |
| Cars.YearThenOdometerRanks | src/spa2/vezbe/sort/automobili/AutomobiliProgram.java:205-214 | a newer year comes first; for the same year the result is the odometer difference; 0 exactly for same year and same odometer |
| Cars.YearThenOdometerAntisymmetric | src/spa2/vezbe/sort/automobili/AutomobiliProgram.java:201-216 | the year-then-odometer order is exactly antisymmetric and compares a car with itself as 0 |
| Cars.SampleVehicles | src/spa2/vezbe/sort/automobili/AutomobiliProgram.java:60-74 | "Yugo" comes before "Zastava 101" in the natural order; the 1999 car comes before the 1985 car by year |
| Cars.ReadCar | src/spa2/vezbe/sort/automobili/AutomobiliProgram.java:156-162 | one vehicle group is seven values, and reading it moves past exactly seven |
| Cars.LoadedCars | src/spa2/vezbe/sort/automobili/AutomobiliProgram.java:138-169 | the vehicles `ucitajAutomobile` returns: none when the file cannot be opened, otherwise the counted groups of the file |
| Cars.CarsFileReads | src/spa2/vezbe/sort/automobili/AutomobiliProgram.java:147-169 | a file of a count and that many groups (skipped line, model, year, fuel, power, colour, odometer) reads back as its vehicles in file order, whatever text each group's skipped line holds and whether each power is an integer or a decimal line |
| Cars.MalformedYearFails | src/spa2/vezbe/sort/automobili/AutomobiliProgram.java:153-163 | after any number of well-formed groups fewer than the count, a group whose year is not a number fails the whole read with a wrong type |
| Cars.LoadCars | src/spa2/vezbe/sort/automobili/AutomobiliProgram.java:135-179 | the array has exactly the file's count of new, pairwise distinct vehicles, each holding its group's values, in file order; the errors are those of the file |

## Left out

- Console prompting and output: the `readLine` prompts, `stampajNiz`, `stampajKnjige`, the `printf` table and `Automobil.toString`. They are user interface and formatting, including `%8.2f` floating point.
- Opening and closing files (`Svetovid.testIn`, `testOut`, `closeIn`, `closeOut`) is a library. It is represented only as "source available or not" (an `Option`) and "destination writable or not" (a boolean).
- `Svetovid.in(fajl)` at KnjigeProgram.java:112 is assumed to read from the same token stream as the reader `in`.
- A line of text is a `Text` token and is never read as a number, and a number line is never read as text; the model does not parse digits out of lines.
- Cars.CarsFileReads: a skipped line is read with `readLine`, which in the model accepts only a `Text` token. A skipped line holding a number is a `Num` token and fails the read, where Java reads it as a line; the same holds for a book title or author made of digits.
- BookFile.BooksRoundTrip: a `Text` token is one line and never holds a line terminator. A title or author containing a line break, which `println` writes as several lines, is not modelled, so the round trip (and `SaveBooks`'s read-back) holds for the token model only.
- `Motor.compareTo` and `Motor.toString` rest on `double` arithmetic, `Math.signum` and the horsepower factor 1.34102. The engine is carried as a fuel string and a `real` power, and how a `double` rounds is not modelled.
- `Arrays.sort`, in all three programs (KnjigeProgram.java:81, KnjigeProgramNastavak.java:37, AutomobiliProgram.java:194 and 222), is a library stable sort. `AutomobiliProgram.sortirajNiz` and `sortirajNizAlt` call only it and are not modelled.
- ExchangeSort.ApplyOption: for option 1 (`Arrays.sort`) the contract promises only a permutation in natural order; the body reaches it with the exchange sort, and the library sort's stability and order of equal books are not modelled.
- Java `int` overflow is not modelled: the year and odometer differences in both vehicle orderings and the odometer sum in `vozi` use unbounded integers, as does `-` in `ObrnutiKomparator` (in Java, negating `Integer.MIN_VALUE` overflows).
- `String.CASE_INSENSITIVE_ORDER` is modelled with ASCII case mapping only. Java's Unicode case mapping is not modelled.
- Dafny's `char` is a Unicode scalar value, while Java's `char` is a UTF-16 code unit. `compareTo` differs on characters outside the Basic Multilingual Plane.
- `Objects.compare` answers 0 for the same string object without calling the comparator. The model uses string equality, and both give 0 there.
- Only the option switch of `KnjigeProgramNastavak.main` is modelled (`ChoiceFor`, `ApplyOption`). `ApplyOption(a, 1)` also stands for `Arrays.sort(niz)` at KnjigeProgram.java:81. The rest of the three `main` methods is left out: reading the option from the console, the load, print and save sequence, and the two sorts of `AutomobiliProgram.main` (lines 126 and 130).
