# CandySimplyFi key recovery, in Dafny

CandySimplyFi reads the status blob of a Candy "Simply-Fi" appliance. The blob
is encrypted with a short repeating XOR key. The program recovers that key
from fragments of plaintext it knows the blob contains, then decrypts the
blob with it. This project models the key-recovery core, the `xorknown`
namespace, together with the free function `xor_string` of
`CandySimplyFi.cpp`. It proves what those routines compute.

- `xorknown.dfy`, module `XorKnown`:
  - `multiply_string`: a string repeated `count` times.
  - `is_printable`: every byte is the wildcard 0xff, CR, LF, TAB, or printable ASCII.
  - The one `std::string::find` call the search makes.
  - `find_xor_key`: the exhaustive search over alignment `pp`, key length `kl` and rotation `kp`.
  - `find_xor_key_list`: the first fragment of a list for which the search finds a key.
- `candysimplyfi.dfy`, module `CandySimplyFi`: `xor_string`, which decrypts a buffer in place with a repeating key.

Bytes are `bv8` and a `std::string` is a `seq<bv8>`. `xor_string` mutates its
buffer, so it works on an `array<bv8>`.

Each loop of the source is a method proved against a specification function:
- `Repeat` for the loop of `multiply_string`;
- `AllPrintable` for the scan of `is_printable`;
- `PartialKey` for the `j` loop of `find_xor_key`;
- `Decrypt` for its `x` loop;
- `FirstFound` for the loop of `find_xor_key_list`;
- `XorWith` for the loop of `xor_string`.

The three nested search loops of `find_xor_key` are tied to `SearchFrom`. That
function states the remaining search from any loop position
(`pp`, `kl`, `kp`). Lemmas then characterise the outcome: the returned key is
the one for the first candidate, in loop order, that passes every test the
loop body applies. No earlier candidate passes them. The result is empty
exactly when no candidate passes.

### Where the code differs from the algorithm it ports

The source says it is based on the Python `xorknown.py`. The model follows
the C++ as written, and proves where it behaves differently:

- **Padding is the text "255".** The padding is `std::to_string(ignore_code)`,
  which is the three characters `"255"` (0x32 0x35 0x35), not the wildcard
  byte 0xff. A key "of length `kl`" is therefore `|pk| + 3·(kl − |pk|)` bytes
  long. The padding bytes decrypt their positions instead of being skipped.
  See `Padding`, `PaddedKeyAt`, `ExpandedKeyShape` and `ExpandedKeyWildcards`.
- **The fragment check never rejects.** The test at line 87 is
  `known_plaintext.find(decrypted_text)`, read as a truth value. It looks for
  the whole decryption inside the fragment, and it fails only when `find`
  returns 0. Every decryption the loop tests is longer than the fragment, so
  `find` returns `npos` and the test always passes. A candidate is accepted as
  soon as its partial key and its decryption are printable. The decryption
  need not contain the fragment at all (`FindCheckNeverRejects`).
- **The length guard.** It rejects fragments longer than 17 bytes, although
  its message says 16. A 17-byte fragment passes the guard, but the key-length
  loop then runs zero times, so the result is empty (`FindXorKeyEmptyCases`).
  Two of the fragments `main` passes to `find_xor_key_list` (lines 205-206)
  are exactly 17 bytes long, so they can never yield a key.
- **The last alignment is never tried.** `pp` runs while
  `pp < data.size() - known_plaintext.length()`. Alignment
  `|data| − |known|` is never tried (`Alignments`).
- **Short buffers.** A buffer shorter than a fragment of at most 17 bytes
  makes the unsigned subtraction wrap around. The loops then read past the
  end of the buffer. `FindXorKey` requires that this cannot happen
  (`FragmentFits`). The only caller, `main`, rejects only an empty response
  (line 197). A response of 1 to 16 bytes therefore reaches this wrap-around
  with the first fragment of its list, which is 17 bytes long.

## Model

| member | source | states |
|---|---|---|
| XorKnown.MultiplyString | CandySimplyFi.cpp:26-32 | the result is `str` written `count` times in a row (`Repeat`) and is `|str|·count` bytes long |
| XorKnown.RepeatLength | CandySimplyFi.cpp:26-32 | `count` copies of `s` are `|s|·count` bytes long; zero copies are the empty string |
| XorKnown.RepeatBlock | CandySimplyFi.cpp:26-32 | byte `|s|·q + r` of the repetition is `s[r]` for every copy `q < count` and `r < |s|` |
| XorKnown.RepeatExcludes | CandySimplyFi.cpp:26-32 | a byte that is not in `s` is in no repetition of `s` |
| XorKnown.IsPrintable | CandySimplyFi.cpp:34-43 | returns true exactly when every byte is the wildcard, CR, LF, TAB or in 0x20..0x7E (`AllPrintable`) |
| XorKnown.AllPrintableIffEveryByte | CandySimplyFi.cpp:34-43 | the text is accepted if and only if each of its bytes is accepted; the empty text is accepted |
| XorKnown.FindFrom | CandySimplyFi.cpp:87 | `find` returns `npos` exactly when the needle occurs nowhere from `from` on; otherwise it returns an occurrence at or after `from` with none between `from` and it |
| XorKnown.FindIsZeroIffPrefix | CandySimplyFi.cpp:87 | `find` returns 0 if and only if the needle is a prefix of the haystack |
| XorKnown.PartialKeyAt | CandySimplyFi.cpp:57-64 | the partial key for alignment `pp` has the fragment's length; byte `j` is the wildcard where the fragment has one, else data byte `pp + j` XOR fragment byte `j` |
| XorKnown.DerivePartialKey | CandySimplyFi.cpp:57-64 | the `j` loop builds exactly `PartialKey(data, known, pp)` |
| XorKnown.Padding | CandySimplyFi.cpp:72 | `n` copies of the text "255" are `3·n` bytes, none of them the wildcard 0xff |
| XorKnown.PaddedKeyAt | CandySimplyFi.cpp:72 | the padded key holds the partial key at its start and the bytes of "255" cyclically after it |
| XorKnown.RotateLeftPermutes | CandySimplyFi.cpp:73 | rotating left by `k` moves the first `k` bytes, in order, behind the rest, in order, and permutes the string |
| XorKnown.RotateLeftAt | CandySimplyFi.cpp:73 | after rotating left by `k`, position `i` holds the byte from position `(i + k) mod |s|` |
| XorKnown.ExpandedKeyShape | CandySimplyFi.cpp:72-73 | the expanded key is `|pk| + 3·(kl − |pk|)` bytes, at least `kl` (so rotating by `kp < kl` stays in range), and is a permutation of the padded key |
| XorKnown.ExpandedKeyWildcards | CandySimplyFi.cpp:72-73 | a wildcard byte of the expanded key comes from a wildcard of the partial key, at rotated position `(i + kp) mod |key|` |
| XorKnown.Expand | CandySimplyFi.cpp:72-73 | the padded and rotated key is `ExpandedKey(pk, kl, kp)`, of length `|pk| + 3·(kl − |pk|)` |
| XorKnown.DecryptAt | CandySimplyFi.cpp:77-83 | the decryption is as long as the buffer; byte `x` is the wildcard where key byte `x mod |key|` is one, else data XOR that key byte |
| XorKnown.TrialDecrypt | CandySimplyFi.cpp:77-83 | the `x` loop builds exactly `Decrypt(data, key)` |
| XorKnown.MaskedXorTwice | CandySimplyFi.cpp:57-83 | decrypting a data byte with the key byte derived from it gives back the fragment byte, or the wildcard when the XOR produced 0xff |
| XorKnown.TryCandidate | CandySimplyFi.cpp:72-91 | returns the candidate's expanded key and reports a find exactly when the candidate passes the printability and `find` tests (`Hit`) |
| XorKnown.SearchFromFinds | CandySimplyFi.cpp:55-97 | the search resumed at (`pp`, `kl`, `kp`) stops only at a visited candidate, at or after that point, whose alignment is kept and which is a hit |
| XorKnown.SearchFromFirst | CandySimplyFi.cpp:55-97 | every visited candidate from the resume point up to the stop point (or to the end, when there is none) fails the pruning test or the hit test |
| XorKnown.FirstHitIsFirst | CandySimplyFi.cpp:55-97 | the search finds nothing if and only if no candidate is a hit; what it finds is a hit with no hit before it in loop order |
| XorKnown.FindXorKeyIsFirstHit | CandySimplyFi.cpp:45-98 | the key is empty if and only if no candidate is a hit; otherwise it is the expanded key of the first hit in loop order |
| XorKnown.FindXorKey | CandySimplyFi.cpp:45-98 | the guard and the nested loops return `FindXorKeySpec(data, known)` |
| XorKnown.FindXorKeyEmptyCases | CandySimplyFi.cpp:47-70 | on inputs where the program is defined, a fragment of 17 bytes or more, or a buffer exactly as long as the fragment, gives the empty key |
| XorKnown.FindCheckNeverRejects | CandySimplyFi.cpp:85-91 | the `find` at line 87 always returns `npos`, so a candidate is a hit exactly when its partial key and its decryption are printable |
| XorKnown.FoundKeyDecryptsPrintably | CandySimplyFi.cpp:57-91 | a non-empty key decrypts the whole buffer to printable text, is between `|known|` and `|known| + 3·(16 − |known|)` bytes long, and is the expanded key of a candidate whose partial key is printable |
| XorKnown.AlignedKeyByte | CandySimplyFi.cpp:57-79 | when `pp + kp` is a multiple of the key length, the key byte that meets data byte `pp + j` is partial-key byte `j` |
| XorKnown.AlignedCandidateReproducesFragment | CandySimplyFi.cpp:57-83 | for such a candidate, the decryption reproduces fragment byte `j` at position `pp + j`, or the wildcard where that XOR gave 0xff |
| XorKnown.FirstFoundIsFirstSuccess | CandySimplyFi.cpp:100-110 | the first non-empty result over a list is empty if and only if every element gives an empty result; otherwise it is the result of the first element that gives a non-empty one |
| XorKnown.FindXorKeyListIsFirstSuccess | CandySimplyFi.cpp:100-110 | the list search returns the key of the first fragment that yields one, after every earlier fragment yielded none, and is empty exactly when every fragment fails |
| XorKnown.FindXorKeyList | CandySimplyFi.cpp:100-110 | the loop with its early return computes `FindXorKeyListSpec(data, knowns)`, requiring only the fragments it reaches to fit the buffer |
| CandySimplyFi.XorString | CandySimplyFi.cpp:113-118 | the buffer afterwards is its old content XOR the key repeated along it (`XorWith`) |
| CandySimplyFi.XorWithInvolution | CandySimplyFi.cpp:113-118 | XOR-ing twice with the same key restores the buffer |
| CandySimplyFi.DecryptWithoutWildcards | CandySimplyFi.cpp:113-118 | with a key free of 0xff, the trial decryption of `find_xor_key` equals what `xor_string` produces |
| CandySimplyFi.FoundKeyDecodesBuffer | CandySimplyFi.cpp:113-118 | a found key free of 0xff makes `xor_string` turn the buffer into printable text |

## Left out

- `get_candySimplify_data`, `show_header` and `main` are not part of this model. They are socket I/O, console output and argument handling around the core.
- The error message that `find_xor_key` writes to standard error for an over-long fragment is left out; only the empty result is modelled.
- Bytes are unsigned 0..255, and `isprint` is the C-locale range 0x20..0x7E. Where `char` is signed, the comparisons with 0xff at lines 38, 60 and 79 can never hold. `isprint` of a negative value is then undefined. That platform behaviour is not modelled.
- `std::rotate` and `std::stringstream` are modelled by their results on values, not by their in-place algorithms.
- `size_t` positions are unbounded naturals. `npos` is 2^64 − 1, and strings are assumed shorter than that.
- MultiplyString: `count` is an unbounded natural instead of a 32-bit `unsigned int`. The source only passes counts below 17, where the two agree.
- FindXorKey: requires that the buffer be at least as long as any fragment that passes the guard. The source has no defined behaviour otherwise, because the unsigned subtraction wraps around.
