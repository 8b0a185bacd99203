# Seed-list parsing of the tenderseed start command

tenderseed is a seed node for a Tendermint peer-to-peer network. Its start
command builds a peer-exchange (PEX) reactor in seed mode. The reactor's
bootstrap seeds come from the configured `Seeds` string, which
`splitAndTrimEmpty(seeds, ",", " ")` turns into a list of addresses
(internal/cmd/start.go:127). This project models that function. It also
models the parts of Go's `strings` package the function relies on: `Split`,
`Trim`, the `Index`, `TrimLeft` and `TrimRight` that define them, and the
`Count` and `Join` that state the number of pieces and the round trip.

- `gostrings.dfy`, module `GoStrings`: the string operations. A Go string is a
  `seq<char>` with one `char` per code point. `Split` cuts at non-overlapping
  occurrences of a non-empty separator, scanning from the left. That gives
  one piece more than there are occurrences. With the empty separator it
  gives one piece per code point. `Trim` removes the longest prefix and the
  longest suffix made only of cutset code points. The contracts are lemmas:
  `Index` finds the first occurrence, `Split` is inverted by `Join` and, for
  a non-empty separator, its pieces never contain it, and `Trim` is
  characterised completely, including a uniqueness lemma.
- `seedlist.dfy`, module `SeedList`: `Spec(s, sep, cutset)` is the value the
  function computes, `DropEmpty(TrimAll(Split(s, sep), cutset))`. The method
  `SplitAndTrimEmpty` follows the Go code. It returns early on `""`, then
  walks `spl` by index and appends each non-empty trimmed piece. It is proved
  equal to `Spec`. Lemmas prove the properties promised of the result.
  Module `SeedListExample` works the start command's own arguments through
  one seed list that holds a blank entry.

The cutset is only the space code point (internal/cmd/start.go:127), so
tabs and newlines around an address are kept.

## Model

| member | source | states |
|---|---|---|
| `SeedList.SplitAndTrimEmpty` | internal/cmd/start.go:165-179 | the list returned, on the early-return path and on the loop path, is exactly `Spec(s, sep, cutset)`: the pieces of `Split(s, sep)`, each trimmed, in order, with the empty ones removed |
| `SeedList.Spec` | internal/cmd/start.go:165-179 | the value the function computes, split then trim each piece then drop the empty ones; no contract of its own beyond its definition, its meaning is given by `SpecIsOrderedSelection`, `SpecElementsTrimmed`, `SpecLength` and `SpecAvoidsSep` |
| `SeedList.SpecOfEmpty` | internal/cmd/start.go:166-178 | the general path on `""` also gives `[]`: splitting `""` gives one empty piece (none for the empty separator), and nothing survives the filter; so the early return agrees with it |
| `SeedList.SpecElementsTrimmed` | internal/cmd/start.go:172-176 | every element of the result is non-empty, neither starts nor ends with a cutset code point, is left unchanged by `Trim`, and is the trim of some piece of `Split(s, sep)` |
| `SeedList.SpecIsOrderedSelection` | internal/cmd/start.go:170-177 | the result is a subsequence of the trimmed pieces, so nothing is reordered or invented, and it holds every non-empty trimmed piece exactly as many times as it occurs, so nothing is lost |
| `SeedList.DropEmptyUnique` | internal/cmd/start.go:174-176 | those two properties determine the filter: any order-preserving selection of non-empty elements with the same multiset equals `DropEmpty` |
| `SeedList.DropEmptyKeepsNonEmpty` | internal/cmd/start.go:174-176 | the filter keeps only non-empty strings, each non-empty string as often as it occurs in the input |
| `SeedList.DropEmptyAppend` | internal/cmd/start.go:174-176 | one loop step: appending a piece to the input appends it to the output exactly when it is non-empty |
| `SeedList.DropEmpty` | internal/cmd/start.go:171-177 | the filtered list is never longer than its input |
| `SeedList.TrimAll` | internal/cmd/start.go:172-173 | one trimmed piece per piece, the k-th being `Trim` of the k-th piece |
| `SeedList.SpecLength` | internal/cmd/start.go:170-172 | with a non-empty separator the result has at most one element more than the number of non-overlapping occurrences of the separator, that is, no more elements than `Split` has pieces |
| `SeedList.SpecAvoidsSep` | internal/cmd/start.go:170-173 | with a non-empty separator no element of the result contains the separator |
| `SeedListExample.BlankEntryDropped` | internal/cmd/start.go:127 | for two addresses without commas and without edge spaces, `a + ", ," + b` parses with `","` and `" "` to exactly `[a, b]` |
| `SeedListExample.BootstrapSeeds` | internal/cmd/start.go:127 | with the start command's arguments `"1.2.3.4:26656, ,5.6.7.8:26656"` parses to exactly `["1.2.3.4:26656", "5.6.7.8:26656"]` |
| `GoStrings.Index` | internal/cmd/start.go:170 | the result is -1 or the position of a full-length window of `s` |
| `GoStrings.IndexFindsFirst` | internal/cmd/start.go:170 | `Index` returns an occurrence with no occurrence before it, and returns -1 exactly when `s` does not contain `sep` |
| `GoStrings.Split` | internal/cmd/start.go:170 | a non-empty separator gives at least one piece; the empty separator gives one piece per code point |
| `GoStrings.Explode` | internal/cmd/start.go:158-162 | with the empty separator the string is split after each code point: the k-th piece is the one-code-point string holding `s[k]` |
| `GoStrings.Count` | internal/cmd/start.go:170 | with a non-empty separator the count of non-overlapping occurrences never exceeds the length of `s`; its relation to `Split` is `SplitLength` |
| `GoStrings.Join` | internal/cmd/start.go:170 | no contract of its own; its meaning as the inverse of `Split` is given by `SplitJoin` |
| `GoStrings.SplitJoin` | internal/cmd/start.go:170 | joining the pieces with the separator gives back the input, for every separator |
| `GoStrings.SplitAvoidsSep` | internal/cmd/start.go:170 | with a non-empty separator no piece contains the separator |
| `GoStrings.SplitLength` | internal/cmd/start.go:170 | with a non-empty separator there is one piece more than the left-to-right count of non-overlapping occurrences |
| `GoStrings.TrimLeft` | internal/cmd/start.go:173 | the result is never longer than `s`; its full meaning is given by `TrimLeftCharacterized` |
| `GoStrings.TrimRight` | internal/cmd/start.go:173 | the result is never longer than `s`; its full meaning is given by `TrimRightCharacterized` |
| `GoStrings.Trim` | internal/cmd/start.go:173 | the result is never longer than `s`; its full meaning is given by `TrimCharacterized` and `TrimUnique` |
| `GoStrings.TrimLeftCharacterized` | internal/cmd/start.go:173 | `TrimLeft` leaves a suffix; everything it drops is in the cutset and what it leaves does not start with a cutset code point |
| `GoStrings.TrimRightCharacterized` | internal/cmd/start.go:173 | `TrimRight` leaves a prefix; everything it drops is in the cutset and what it leaves does not end with a cutset code point |
| `GoStrings.TrimCharacterized` | internal/cmd/start.go:158-160 | `Trim` leaves the factor of `s` between a cutset-only prefix and a cutset-only suffix, and that factor neither starts nor ends with a cutset code point |
| `GoStrings.TrimUnique` | internal/cmd/start.go:173 | any factor with the properties of `TrimCharacterized` is `Trim(s, cutset)`, so they define it |
| `GoStrings.TrimFixedPoint` | internal/cmd/start.go:173 | `Trim(s, cutset) == s` exactly when `s` is empty or neither starts nor ends with a cutset code point |
| `GoStrings.TrimIdempotent` | internal/cmd/start.go:173 | trimming twice is trimming once |
| `GoStrings.TrimAvoidsSep` | internal/cmd/start.go:173 | trimming a string that does not contain the separator gives one that does not contain it either |

## Left out

- `Execute` (internal/cmd/start.go:46-156) is left out. It is start-up wiring: logger construction, directory creation, loading the node key, transport listening, and building the address book, PEX reactor and switch. All of it is file I/O, networking and calls into Tendermint libraries whose source is not part of this model. The address book, PEX state machine and switch limits live in those libraries.
- The shutdown handler (internal/cmd/start.go:140-147) is left out. It is operating-system signal handling plus the foreign calls `book.Save()` and `sw.Stop()`.
- Relative-path resolution (internal/cmd/start.go:56-61) is left out. Its behaviour is that of `filepath.IsAbs` and `filepath.Join`, library code that is not part of this model.
- Copying configuration fields (internal/cmd/start.go:66-76) and the `Name`, `Synopsis`, `Usage` and `SetFlags` methods (internal/cmd/start.go:28-43) are left out. They are constant assignments with no behaviour to prove.
- Go strings are bytes in UTF-8. The model treats a string as a sequence of code points, so how Go's `Split` with an empty separator and how `Trim` handle invalid UTF-8 bytes is not modelled.
- `GoStrings.Split`, `GoStrings.Index`, `GoStrings.Count`, `GoStrings.TrimLeft` and `GoStrings.TrimRight` are written from the documented behaviour of Go's standard library. Its source is not part of this model. The library computes them with loops and byte-level fast paths, and the model states only their results.
- The slice capacity `len(spl)` given to `make` (internal/cmd/start.go:171) is a memory-allocation hint and is not modelled.
