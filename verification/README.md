# IP address pool library, modelled in Dafny

This project models the IP-address pool library of `ip_filter` (`src/ip_filter_lib.cpp`).
The library reads textual records such as `1.2.3.4<TAB>some_data` and does five things:

- `split` cuts a string at a delimiter character and keeps empty pieces.
- `parse_ip_pool` turns each line into an address. It takes the first tab field and cuts it at the dots.
- `sort_ip_pool` sorts the pool in place. The order is descending on the first four components read with `std::stoi`.
- Three filters build a new pool. They keep the addresses whose first component, first two components, or any component equals the given value.
- `ip_to_string` joins an address's components with dots.

Modules:

- `Wrappers` (`wrappers.dfy`): `Option`, `Result` and `Outcome`. A thrown exception becomes a `Failure` or `Fail` value.
- `Tokenizer` (`tokenizer.dfy`): `std::string::find_first_of` as `FindFirstOf`, and the specification `Pieces` of `split`. It also holds the method `Split`, with the same `start`/`stop` loop as the source, and `Join`, which specifies `ip_to_string`. The round-trip, count and uniqueness lemmas live here too.
- `Conversion` (`conversion.dfy`): `std::stoi` reduced to a decimal-digits parse, `Stoi`.
- `IpFilter` (`ip_filter.dfy`): addresses (`seq<string>`) and pools (`seq<Address>`), `ParseIpPool`, the comparator, and the in-place sort on an `array<Address>`. It also holds the three filter methods, each proved against the reference function `Filtered`, and `IpToString`.
- `Scenarios` (`scenarios.dfy`): the cases from `tests/ip_filter_tests.cpp`, stated as lemmas on the model.

Errors. `PoolError` has two values:

- `ConversionError` is what `std::stoi` throws.
- `MissingComponent` stands for `ip[k]` read past the end of a short address. In C++ this is undefined behaviour because `operator[]` is unchecked. The model reports it as a separate error instead of requiring four components up front.

Behaviour of the code that is easy to misread:

- The sort uses `std::sort`, so it is not stable. Addresses with equal first four values may come out in any order; the model promises only the ordering and a permutation.
- `filter_by_any_byte` scans every component of an address, however many there are. It stops at the first match, so a bad component after the match is never converted.
- Component counts are never checked. A line gives as many components as its first field has dot-separated parts.
- `sort_ip_pool` on a pool of zero or one address never calls the comparator, so it never fails, even if the address is malformed. With two or more addresses, `std::sort` passes every element to the comparator. The sort then fails exactly when some address lacks four convertible components.

## Model

| member | source | states |
|---|---|---|
| `Tokenizer.FindFirstOf` | src/ip_filter_lib.cpp:10-16 | `find_first_of(d, start)` gives the first index at or after `start` that holds `d`, or none (`npos`) when no such index exists |
| `Tokenizer.FirstOccurrence` | src/ip_filter_lib.cpp:10-16 | any index that is the first `d` at or after `start` is exactly what `FindFirstOf` returns |
| `Tokenizer.Pieces` | src/ip_filter_lib.cpp:5-22 | the reference definition of `split`: the piece before the first delimiter, then the pieces of the rest, or the whole string when no delimiter is left; never an empty list |
| `Tokenizer.PiecesAtFirst` | src/ip_filter_lib.cpp:11-17 | cutting at the first delimiter gives the piece before it, followed by the pieces of the rest |
| `Tokenizer.Join` | src/ip_filter_lib.cpp:88-96 | the reference definition of `ip_to_string`: the parts with one separator between neighbours; a single part is returned as it is |
| `Tokenizer.Split` | src/ip_filter_lib.cpp:5-22 | the `start`/`stop` loop returns `Pieces(s, d)`: one more piece than there are `d` in `s`, no piece holding `d`, and pieces that join back to `s` |
| `Tokenizer.JoinPieces` | src/ip_filter_lib.cpp:5-22 | joining the pieces of `s` with `d` reproduces `s` |
| `Tokenizer.PiecesFree` | src/ip_filter_lib.cpp:13-19 | no piece contains the delimiter |
| `Tokenizer.PiecesCount` | src/ip_filter_lib.cpp:11-19 | the number of pieces is the number of delimiter occurrences plus one, so empty pieces are never dropped |
| `Tokenizer.PiecesNoDelimiter` | src/ip_filter_lib.cpp:19 | a string with no delimiter, the empty string included, is the single piece `[s]` |
| `Tokenizer.PiecesJoin` | src/ip_filter_lib.cpp:88-96 | the other round trip: splitting the dot-join of a non-empty list of dot-free parts (empty parts allowed) gives those parts back |
| `Tokenizer.JoinSnoc` | src/ip_filter_lib.cpp:91-94 | one loop step of `ip_to_string`: appending a part adds the separator and the part at the end |
| `Conversion.Stoi` | src/ip_filter_lib.cpp:42 | a successful conversion is a non-empty run of digits with a value from 0 to `INT_MAX`; the empty string never converts |
| `IpFilter.FirstFieldOfPieces` | src/ip_filter_lib.cpp:30-31 | `split(line, '\t').at(0)` is the tab-free prefix of the line that ends at the first tab or at the end of the line |
| `IpFilter.ParseLine` | src/ip_filter_lib.cpp:30-31 | the address one line yields, `split(split(line, '\t').at(0), '.')`, has one component more than its first tab field has dots, so an empty line gives one empty component |
| `IpFilter.ParseLineMeaning` | src/ip_filter_lib.cpp:30-31 | a parsed line, rendered with dots, is exactly `split(line, '\t').at(0)`, which is the line's first tab field; no component holds a dot; a field without dots is one component |
| `IpFilter.ParseIpPool` | src/ip_filter_lib.cpp:24-35 | never fails; one address per line, in line order; address `i` is `split(split(lines[i], '\t')[0], '.')`, and rendering it gives the first tab field of line `i` |
| `IpFilter.ComponentAt` | src/ip_filter_lib.cpp:52 | `stoi(ip[k])` fails with `MissingComponent` exactly when `k` is out of range, and with `ConversionError` exactly when the component does not convert; otherwise it is the converted value |
| `IpFilter.Octets` | src/ip_filter_lib.cpp:42-43 | the four conversions the comparator does for one address succeed exactly when components 0 to 3 all exist and convert, and give them in order |
| `IpFilter.QuadGreater` | src/ip_filter_lib.cpp:44 | `std::tie(...) > std::tie(...)`: a larger first value wins outright, and a greater tuple is never equal to the other and never has a smaller first value |
| `IpFilter.QuadOrderIsTotal` | src/ip_filter_lib.cpp:44 | the tuple comparison is irreflexive, asymmetric, transitive and total: of two different tuples exactly one is greater |
| `IpFilter.Comparator` | src/ip_filter_lib.cpp:40-45 | the lambda throws exactly when one of its arguments lacks four convertible components, and when `a` is malformed its error is the one thrown, since `a` is converted first; otherwise `a` goes before `b` exactly when their tuples differ and `b`'s is not greater |
| `IpFilter.ComparatorIsStrictWeakOrder` | src/ip_filter_lib.cpp:40-44 | the comparator throws exactly when an argument lacks four convertible components; otherwise it is irreflexive, asymmetric and transitive, and two addresses are equivalent exactly when their integer 4-tuples are equal |
| `IpFilter.NumericNotLexicographic` | src/ip_filter_lib.cpp:42-44 | components compare as integers: `10.0.0.0` sorts before `9.0.0.0` |
| `IpFilter.SortedIsDescending` | src/ip_filter_lib.cpp:37-46 | a pool of two or more addresses sorted by the comparator has only convertible addresses, and their 4-tuples do not increase from one position to any later one |
| `IpFilter.AdjacentToAll` | src/ip_filter_lib.cpp:44 | keys that do not increase between neighbours do not increase between any two positions |
| `IpFilter.SortedKeysAreSorted` | src/ip_filter_lib.cpp:39-45 | non-increasing keys mean that no later address compares before an earlier one |
| `IpFilter.InsertAt` | src/ip_filter_lib.cpp:39-45 | one insertion pass of the in-place sort: after moving address `i` forward, the first `i + 1` addresses have non-increasing keys and are a permutation of the old first `i + 1`; the addresses after `i` are untouched |
| `IpFilter.SortDescending` | src/ip_filter_lib.cpp:39-45 | sorting convertible addresses in place leaves the array sorted by the comparator and a permutation of its old contents |
| `IpFilter.SortIpPool` | src/ip_filter_lib.cpp:37-46 | fails exactly when there are two or more addresses and one lacks four convertible components, reporting that address's error and leaving the pool as it was; otherwise the pool is sorted by the comparator and holds the same addresses |
| `IpFilter.Filtered` | src/ip_filter_lib.cpp:48-86 | a successful filter never returns more addresses than the pool holds |
| `IpFilter.FilteredPrefixFailure` | src/ip_filter_lib.cpp:51-55 | once the scan of a prefix throws, the whole filter throws the same error: nothing after it is examined |
| `IpFilter.FilteredErrors` | src/ip_filter_lib.cpp:48-86 | a filter succeeds exactly when every address's test succeeds; when it fails, the error is that of the first address whose test throws |
| `IpFilter.FilteredIsSubsequence` | src/ip_filter_lib.cpp:50-56 | a filter's result is a subsequence of the pool, so the original relative order is kept |
| `IpFilter.FilteredCounts` | src/ip_filter_lib.cpp:50-56 | a filter's result holds each matching address as often as the pool does, and no other address |
| `IpFilter.FilteredKeepsExactly` | src/ip_filter_lib.cpp:48-57 | a filter's result is exactly the matching addresses, in pool order |
| `IpFilter.FilteredIdempotent` | src/ip_filter_lib.cpp:48-86 | filtering a filter's result again by the same criterion returns it unchanged |
| `IpFilter.FirstTwoBytesRefinesFirstByte` | src/ip_filter_lib.cpp:59-68 | if the two-byte filter succeeds, the first-byte filter for the same first value succeeds too; the two-byte result is the two-byte filter applied to that result, and a subsequence of it |
| `IpFilter.Matches` | src/ip_filter_lib.cpp:52-76 | the per-address tests of the three filters: the first-byte test matches exactly when component 0 converts to the value and throws exactly when reading component 0 does; the two-byte test matches exactly when components 0 and 1 convert to the two values, and throws exactly when component 0 fails or when it matches and component 1 fails; the any-byte test only ever throws `ConversionError` |
| `IpFilter.AnyComponentIs` | src/ip_filter_lib.cpp:74-80 | the inner scan of `filter_by_any_byte` only ever throws `ConversionError` (never `MissingComponent`, since it reads only existing components), and reports a match only for a value that some component converts to |
| `IpFilter.AnyComponentIsTrue` | src/ip_filter_lib.cpp:74-80 | the any-byte test matches exactly when some component converts to the value and every component before it converts |
| `IpFilter.AnyComponentIsFalse` | src/ip_filter_lib.cpp:74-80 | the any-byte test does not match exactly when every component converts and none equals the value |
| `IpFilter.AnyComponentIsFailure` | src/ip_filter_lib.cpp:74-80 | the any-byte test throws `ConversionError` exactly when a component fails to convert before any component equal to the value |
| `IpFilter.FilterByFirstByte` | src/ip_filter_lib.cpp:48-57 | the loop returns `Filtered` for the first-byte test: exactly the addresses whose component 0 converts to the value, in order; it fails exactly when some address's component 0 is missing or does not convert |
| `IpFilter.FilterByFirstTwoBytes` | src/ip_filter_lib.cpp:59-68 | the loop returns `Filtered` for the two-byte test: the addresses with component 0 equal to `v1` and component 1 equal to `v2`, in order; component 1 is read only when component 0 matches |
| `IpFilter.FilterByAnyByte` | src/ip_filter_lib.cpp:70-86 | the nested loop with its `match` flag and `break` returns `Filtered` for the any-byte test: the addresses with some component equal to the value, in order; a bad component before a match fails the whole call |
| `IpFilter.IpToString` | src/ip_filter_lib.cpp:88-96 | the indexed loop returns the components joined with `.`; for a non-empty list of dot-free components (empty components allowed), splitting that string at the dots gives the address back |
| `Scenarios.SplitWithoutDelimiter` | tests/ip_filter_tests.cpp:10-27 | `split("", '.')` is `[""]` and `split("11", '.')` is `["11"]` |
| `Scenarios.SplitTwoParts` | tests/ip_filter_tests.cpp:30-39 | `split("11.22", '.')` is `["11", "22"]` |
| `Scenarios.SplitOnlyDelimiters` | tests/ip_filter_tests.cpp:42-51 | `split("..", '.')` is three empty strings |
| `Scenarios.SplitLeadingTrailing` | tests/ip_filter_tests.cpp:54-75 | `split(".11", '.')` is `["", "11"]` and `split("11.", '.')` is `["11", ""]` |
| `Scenarios.ParseScenario` | tests/ip_filter_tests.cpp:84-101 | the line `1.2.3.4<TAB>some_data` parses to `["1", "2", "3", "4"]` |
| `Scenarios.SortScenario` | tests/ip_filter_tests.cpp:104-125 | the only comparator-sorted order of the three test addresses is 2.1.1.1, 1.2.3.4, 1.1.1.1 |
| `Scenarios.FirstByteScenario` | tests/ip_filter_tests.cpp:128-145 | filtering the test pool by first byte 1 gives 1.2.3.4 and 1.1.1.1, in that order |
| `Scenarios.FirstTwoBytesScenario` | tests/ip_filter_tests.cpp:148-169 | filtering by 46.70 gives 46.70.1.1 and 46.70.2.2 |
| `Scenarios.AnyByteScenario` | tests/ip_filter_tests.cpp:172-187 | filtering by any byte 46 gives only 9.46.11.12 |
| `Scenarios.RenderScenario` | tests/ip_filter_tests.cpp:190-196 | `["192", "168", "1", "1"]` renders as `192.168.1.1` |
| `Scenarios.ConversionErrorScenario` | src/ip_filter_lib.cpp:52 | a first component `abc` fails the first-byte filter and the comparator's conversion with `ConversionError` |

## Left out

- `main` in `src/ip_filter.cpp` is left out. It reads standard input with `getline`, prints the pool and the three filtered pools, and reports exceptions on standard error. It is I/O glue with no decisions in it.
- `Conversion.Stoi`: models `std::stoi` only as a parse of a non-empty run of decimal digits whose value is at most `INT_MAX`. The model does not skip leading whitespace, accept a sign, or accept a numeric prefix followed by other characters (`"12abc"` gives 12 in C++ and fails here). An out-of-range value fails, as it does in C++.
- `IpFilter.SortIpPool`: on failure the model leaves the pool unchanged. In C++, an exception thrown by the comparator midway through `std::sort` leaves the vector in an unspecified order. The model checks every address before sorting instead.
- `IpFilter.SortDescending` stands in for `std::sort`'s internals. It is an insertion sort, proved against the same postcondition `std::sort` gives: sorted by the comparator and a permutation.
- Reading a component past the end of an address (`ip[0]`, `ip[1]`, `a[0..3]` through `operator[]`) is undefined behaviour in C++. The model reports it as `MissingComponent` and does not model the out-of-bounds read.
- Filters take their pool by value in the model. That `const IPPool&` input is never modified needs no statement.
- The `int` width of the filter arguments is not modelled. Converted values lie in 0 to `INT_MAX`, and the arguments are compared as plain integers.
