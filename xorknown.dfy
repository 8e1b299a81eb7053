/** The `xorknown` key-recovery logic of CandySimplyFi.cpp: given a buffer
    encrypted with a repeating XOR key and a known-plaintext fragment, search
    exhaustively for a key whose decryption of the whole buffer is printable.

    Bytes are unsigned 8-bit values (`bv8`); a C++ `std::string` is a
    `seq<bv8>`. */
module XorKnown {

  datatype Option<T> = None | Some(value: T)

  /** The wildcard byte: "unknown" in a fragment, "do not decrypt" in a key. */
  const IgnoreCode: bv8 := 0xff

  /** One more than the longest key length the search tries. */
  const MaxKeyLength: nat := 17

  /** Whether a partial key must be printable for its alignment to be pursued. */
  const PrintableKey: bool := true

  /** `std::to_string(ignore_code)`: the decimal text "255", three bytes. It is
      what the search pads partial keys with. */
  const IgnoreCodeText: seq<bv8> := [0x32, 0x35, 0x35]

  /** `std::string::npos`, the largest `size_t`. */
  const NPos: nat := 0xFFFF_FFFF_FFFF_FFFF

  const CR: bv8 := 0x0d
  const LF: bv8 := 0x0a
  const TAB: bv8 := 0x09

  // ---------------------------------------------------------------------
  // multiply_string

  /** `s` written `count` times in a row. */
  function Repeat(s: seq<bv8>, count: nat): seq<bv8> {
    if count == 0 then [] else Repeat(s, count - 1) + s
  }

  /** A repetition is |s| * count bytes long; zero copies are empty. */
  lemma {:induction false} RepeatLength(s: seq<bv8>, count: nat)
    ensures |Repeat(s, count)| == |s| * count
    ensures count == 0 ==> Repeat(s, count) == []
  {
    if count > 0 {
      RepeatLength(s, count - 1);
      assert |s| * count == |s| * (count - 1) + |s|;
    }
  }

  lemma {:induction false} MulMonotone(n: nat, a: nat, b: nat)
    requires a <= b
    ensures n * a <= n * b
    decreases b - a
  {
    if a < b {
      MulMonotone(n, a, b - 1);
      assert n * b == n * (b - 1) + n;
    }
  }

  /** Block `q` of a repetition is `s` itself. */
  lemma {:induction false} RepeatBlock(s: seq<bv8>, count: nat, q: nat, r: nat)
    requires q < count && r < |s|
    ensures |s| * q + r < |s| * count == |Repeat(s, count)|
    ensures Repeat(s, count)[|s| * q + r] == s[r]
  {
    RepeatLength(s, count - 1);
    RepeatLength(s, count);
    MulMonotone(|s|, q + 1, count);
    assert |s| * (q + 1) == |s| * q + |s|;
    if q < count - 1 {
      RepeatBlock(s, count - 1, q, r);
    }
  }

  /** A byte absent from `s` is absent from every repetition of `s`. */
  lemma {:induction false} RepeatExcludes(s: seq<bv8>, count: nat, b: bv8)
    requires b !in s
    ensures b !in Repeat(s, count)
  {
    if count > 0 {
      RepeatExcludes(s, count - 1, b);
    }
  }

  lemma {:induction false} MulAtLeast(n: int, k: int)
    requires n > 0 && k >= 1
    ensures n * k >= n
  {
    if k > 1 {
      MulAtLeast(n, k - 1);
      assert n * k == n * (k - 1) + n;
    }
  }

  /** Euclidean division by `n` is unique. */
  lemma ModUnique(x: int, n: int, q: int, r: int)
    requires n > 0 && 0 <= r < n && x == n * q + r
    ensures x % n == r && x / n == q
  {
    var k := x / n - q;
    assert n * k == r - x % n;
    if k >= 1 {
      MulAtLeast(n, k);
    } else if k <= -1 {
      MulAtLeast(n, -k);
    }
  }

  /** The loop of `multiply_string`: append `str` while the counter, tested
      before it is decremented, is non-zero. */
  method MultiplyString(str: seq<bv8>, count: nat) returns (out: seq<bv8>)
    ensures out == Repeat(str, count)
    ensures |out| == |str| * count
  {
    var c: nat := count;
    out := [];
    while c != 0
      invariant c <= count
      decreases c
      invariant out == Repeat(str, count - c)
    {
      c := c - 1;
      out := out + str;
    }
    RepeatLength(str, count);
  }

  // ---------------------------------------------------------------------
  // is_printable

  /** `isprint` in the C locale. */
  predicate IsPrint(b: bv8) {
    0x20 <= b <= 0x7e
  }

  /** A byte `is_printable` lets through. */
  predicate PrintableByte(b: bv8) {
    b == IgnoreCode || b == CR || b == LF || b == TAB || IsPrint(b)
  }

  /** The text `is_printable` accepts, byte by byte from the front. */
  predicate AllPrintable(text: seq<bv8>) {
    |text| == 0 || (PrintableByte(text[0]) && AllPrintable(text[1..]))
  }

  /** A text is accepted exactly when every one of its bytes is; the empty
      text is accepted. */
  lemma {:induction false} AllPrintableIffEveryByte(text: seq<bv8>)
    ensures AllPrintable(text) <==> forall i :: 0 <= i < |text| ==> PrintableByte(text[i])
    ensures AllPrintable([])
  {
    if |text| > 0 {
      AllPrintableIffEveryByte(text[1..]);
      assert forall i :: 1 <= i < |text| ==> text[i] == text[1..][i - 1];
    }
  }

  /** The scanning loop of `is_printable`, returning false at the first byte
      that is none of the accepted kinds. */
  method IsPrintable(text: seq<bv8>) returns (ok: bool)
    ensures ok <==> AllPrintable(text)
  {
    var i := 0;
    while i < |text|
      invariant 0 <= i <= |text|
      invariant AllPrintable(text[i..]) == AllPrintable(text)
    {
      assert text[i..][1..] == text[i + 1..];
      var ch := text[i];
      if ch != IgnoreCode && ch != CR && ch != LF && ch != TAB && !IsPrint(ch) {
        return false;
      }
      i := i + 1;
    }
    return true;
  }

  // ---------------------------------------------------------------------
  // std::string::find, used by find_xor_key

  predicate OccursAt(haystack: seq<bv8>, needle: seq<bv8>, k: nat) {
    k + |needle| <= |haystack| && haystack[k..k + |needle|] == needle
  }

  /** `haystack.find(needle, from)`: the least position at or after `from`
      where `needle` occurs, or `NPos`. */
  function FindFrom(haystack: seq<bv8>, needle: seq<bv8>, from: nat): (r: nat)
    requires |haystack| < NPos
    ensures r == NPos <==> forall k :: from <= k ==> !OccursAt(haystack, needle, k)
    ensures r != NPos ==> from <= r && OccursAt(haystack, needle, r)
    ensures r != NPos ==> forall k :: from <= k < r ==> !OccursAt(haystack, needle, k)
    decreases |haystack| - from
  {
    if from + |needle| > |haystack| then NPos
    else if haystack[from..from + |needle|] == needle then assert OccursAt(haystack, needle, from); from
    else FindFrom(haystack, needle, from + 1)
  }

  function Find(haystack: seq<bv8>, needle: seq<bv8>): nat
    requires |haystack| < NPos
  {
    FindFrom(haystack, needle, 0)
  }

  /** `find` returns 0 exactly when `needle` is a prefix of `haystack`, so the
      test `if (known_plaintext.find(decrypted_text))` fails only then. */
  lemma FindIsZeroIffPrefix(haystack: seq<bv8>, needle: seq<bv8>)
    requires |haystack| < NPos
    ensures Find(haystack, needle) == 0 <==> |needle| <= |haystack| && haystack[..|needle|] == needle
  {
    if |needle| <= |haystack| && haystack[..|needle|] == needle {
      assert OccursAt(haystack, needle, 0);
    }
  }

  // ---------------------------------------------------------------------
  // find_xor_key: the pieces of one trial

  /** XOR of a data byte with a key or fragment byte, except that the wildcard
      operand yields the wildcard itself. */
  function MaskedXor(d: bv8, m: bv8): bv8 {
    if m == IgnoreCode then IgnoreCode else d ^ m
  }

  /** The partial key for alignment `pp`: fragment XOR data at that alignment,
      wildcard where the fragment has one. */
  function PartialKey(data: seq<bv8>, known: seq<bv8>, pp: nat): (pk: seq<bv8>)
    requires pp + |known| <= |data|
    ensures |pk| == |known|
  {
    PartialKeyFrom(data, known, pp, 0)
  }

  /** Bytes `j..` of the partial key for alignment `pp`. */
  function PartialKeyFrom(data: seq<bv8>, known: seq<bv8>, pp: nat, j: nat): (pk: seq<bv8>)
    requires pp + |known| <= |data|
    ensures j <= |known| ==> |pk| == |known| - j
    decreases |known| - j
  {
    if j >= |known| then [] else [MaskedXor(data[pp + j], known[j])] + PartialKeyFrom(data, known, pp, j + 1)
  }

  lemma {:induction false} PartialKeyFromAt(data: seq<bv8>, known: seq<bv8>, pp: nat, j: nat, i: nat)
    requires pp + |known| <= |data| && j <= i < |known|
    ensures |PartialKeyFrom(data, known, pp, j)| == |known| - j
    ensures PartialKeyFrom(data, known, pp, j)[i - j] == MaskedXor(data[pp + i], known[i])
    decreases |known| - j
  {
    if j < i {
      PartialKeyFromAt(data, known, pp, j + 1, i);
    } else if j + 1 < |known| {
      PartialKeyFromAt(data, known, pp, j + 1, j + 1);
    }
  }

  /** The partial key is as long as the fragment; byte `j` is the wildcard
      where the fragment has one, and data byte `pp + j` XOR fragment byte `j`
      elsewhere. */
  lemma PartialKeyAt(data: seq<bv8>, known: seq<bv8>, pp: nat)
    requires pp + |known| <= |data|
    ensures |PartialKey(data, known, pp)| == |known|
    ensures forall j :: 0 <= j < |known| ==> PartialKey(data, known, pp)[j] == MaskedXor(data[pp + j], known[j])
  {
    if |known| > 0 {
      PartialKeyFromAt(data, known, pp, 0, 0);
    }
    forall j | 0 <= j < |known|
      ensures PartialKey(data, known, pp)[j] == MaskedXor(data[pp + j], known[j])
    {
      PartialKeyFromAt(data, known, pp, 0, j);
    }
  }

  /** `std::rotate(s.begin(), s.begin() + k, s.end())`: rotation to the left by `k`. */
  function RotateLeft(s: seq<bv8>, k: nat): (r: seq<bv8>)
    requires k <= |s|
    ensures |r| == |s|
  {
    s[k..] + s[..k]
  }

  /** Rotation moves the first `k` bytes to the end, keeping the order of both
      parts, and so permutes `s`. */
  lemma RotateLeftPermutes(s: seq<bv8>, k: nat)
    requires k <= |s|
    ensures forall i :: 0 <= i < |s| - k ==> RotateLeft(s, k)[i] == s[i + k]
    ensures forall i :: |s| - k <= i < |s| ==> RotateLeft(s, k)[i] == s[i + k - |s|]
    ensures multiset(RotateLeft(s, k)) == multiset(s)
  {
    assert s == s[..k] + s[k..];
    calc {
      multiset(s[k..] + s[..k]);
      multiset(s[k..]) + multiset(s[..k]);
      multiset(s[..k] + s[k..]);
    }
  }

  /** Position `i` of a left rotation by `k` holds `s[(i + k) % |s|]`. */
  lemma RotateLeftAt(s: seq<bv8>, k: nat, i: nat)
    requires k <= |s| && i < |s|
    ensures RotateLeft(s, k)[i] == s[(i + k) % |s|]
  {
    RotateLeftPermutes(s, k);
    if i + k < |s| {
      ModUnique(i + k, |s|, 0, i + k);
    } else {
      ModUnique(i + k, |s|, 1, i + k - |s|);
    }
  }

  /** `n` copies of "255": three bytes each, none of them the wildcard. */
  function Padding(n: nat): (r: seq<bv8>)
    ensures |r| == 3 * n
    ensures IgnoreCode !in r
  {
    RepeatLength(IgnoreCodeText, n);
    RepeatExcludes(IgnoreCodeText, n, IgnoreCode);
    Repeat(IgnoreCodeText, n)
  }

  /** The partial key padded with `kl - |pk|` copies of "255", before rotation. */
  function PaddedKey(pk: seq<bv8>, kl: nat): (r: seq<bv8>)
    requires |pk| <= kl
  {
    pk + Padding(kl - |pk|)
  }

  /** The padded key starts with the partial key and goes on with the text
      "255" repeated, byte by byte. */
  lemma PaddedKeyAt(pk: seq<bv8>, kl: nat, i: nat)
    requires |pk| <= kl && i < |PaddedKey(pk, kl)|
    ensures i < |pk| ==> PaddedKey(pk, kl)[i] == pk[i]
    ensures |pk| <= i ==> PaddedKey(pk, kl)[i] == IgnoreCodeText[(i - |pk|) % 3]
  {
    if |pk| <= i {
      var t := i - |pk|;
      var q, r := t / 3, t % 3;
      assert t == 3 * q + r;
      RepeatBlock(IgnoreCodeText, kl - |pk|, q, r);
    }
  }

  /** The key tried for key length `kl` and rotation `kp`. */
  function ExpandedKey(pk: seq<bv8>, kl: nat, kp: nat): (r: seq<bv8>)
    requires |pk| <= kl && kp < kl
    ensures |r| == |pk| + 3 * (kl - |pk|)
  {
    RotateLeft(PaddedKey(pk, kl), kp)
  }

  /** The expanded key is 3 bytes longer per padding unit than it is "long"
      (`kl`), so the rotation by `kp < kl` is in range; rotation permutes it. */
  lemma ExpandedKeyShape(pk: seq<bv8>, kl: nat, kp: nat)
    requires |pk| <= kl && kp < kl
    ensures |ExpandedKey(pk, kl, kp)| == |pk| + 3 * (kl - |pk|)
    ensures kp < kl <= |ExpandedKey(pk, kl, kp)|
    ensures multiset(ExpandedKey(pk, kl, kp)) == multiset(PaddedKey(pk, kl))
  {
    RotateLeftPermutes(PaddedKey(pk, kl), kp);
  }

  /** The padding never holds the wildcard byte, so a wildcard in an expanded
      key always comes from a wildcard of the partial key. */
  lemma ExpandedKeyWildcards(pk: seq<bv8>, kl: nat, kp: nat, i: nat)
    requires |pk| <= kl && kp < kl
    requires i < |ExpandedKey(pk, kl, kp)|
    requires ExpandedKey(pk, kl, kp)[i] == IgnoreCode
    ensures (i + kp) % |ExpandedKey(pk, kl, kp)| < |pk|
    ensures pk[(i + kp) % |ExpandedKey(pk, kl, kp)|] == IgnoreCode
  {
    var base := PaddedKey(pk, kl);
    var idx := (i + kp) % |base|;
    RotateLeftAt(base, kp, i);
  }

  /** The trial decryption of `data[x..]`: data XOR the repeating key, the
      wildcard where the key byte is the wildcard. */
  function DecryptFrom(data: seq<bv8>, key: seq<bv8>, x: nat): (d: seq<bv8>)
    requires |key| > 0
    ensures x <= |data| ==> |d| == |data| - x
    decreases |data| - x
  {
    if x >= |data| then [] else [MaskedXor(data[x], key[x % |key|])] + DecryptFrom(data, key, x + 1)
  }

  /** The trial decryption of the whole buffer. */
  function Decrypt(data: seq<bv8>, key: seq<bv8>): (d: seq<bv8>)
    requires |key| > 0
    ensures |d| == |data|
  {
    DecryptFrom(data, key, 0)
  }

  lemma {:induction false} DecryptFromAt(data: seq<bv8>, key: seq<bv8>, x: nat, i: nat)
    requires |key| > 0 && x <= i < |data|
    ensures |DecryptFrom(data, key, x)| == |data| - x
    ensures DecryptFrom(data, key, x)[i - x] == MaskedXor(data[i], key[i % |key|])
    decreases |data| - x
  {
    if x < i {
      DecryptFromAt(data, key, x + 1, i);
    } else if x + 1 < |data| {
      DecryptFromAt(data, key, x + 1, x + 1);
    }
  }

  /** The decryption is as long as the buffer, and byte `x` is data byte `x`
      XOR key byte `x mod |key|`, or the wildcard where that key byte is one. */
  lemma DecryptAt(data: seq<bv8>, key: seq<bv8>)
    requires |key| > 0
    ensures |Decrypt(data, key)| == |data|
    ensures forall x :: 0 <= x < |data| ==> Decrypt(data, key)[x] == MaskedXor(data[x], key[x % |key|])
  {
    if |data| > 0 {
      DecryptFromAt(data, key, 0, 0);
    }
    forall x | 0 <= x < |data|
      ensures Decrypt(data, key)[x] == MaskedXor(data[x], key[x % |key|])
    {
      DecryptFromAt(data, key, 0, x);
    }
  }

  /** One alignment, key length and rotation of the search. */
  datatype Candidate = Candidate(pp: nat, kl: nat, kp: nat)

  /** The candidates the nested loops visit, for `alignments` alignments and a
      fragment of `fragmentLength` bytes. */
  predicate Visited(alignments: nat, fragmentLength: nat, c: Candidate) {
    c.pp < alignments && fragmentLength <= c.kl < MaxKeyLength && c.kp < c.kl
  }

  /** Search order: alignment first, then key length, then rotation. */
  predicate Precedes(a: Candidate, b: Candidate) {
    a.pp < b.pp || (a.pp == b.pp && (a.kl < b.kl || (a.kl == b.kl && a.kp < b.kp)))
  }

  /** The nested loops resumed at (`pp`, `kl`, `kp`): the first candidate, in
      search order, whose alignment passes `keep` and which passes `hit`. */
  function SearchFrom(alignments: nat, fragmentLength: nat, keep: nat -> bool, hit: Candidate -> bool,
                      pp: nat, kl: nat, kp: nat): Option<Candidate>
    requires fragmentLength <= kl
    decreases alignments - pp, MaxKeyLength - kl, kl - kp
  {
    if pp >= alignments then None
    else if !keep(pp) || kl >= MaxKeyLength then SearchFrom(alignments, fragmentLength, keep, hit, pp + 1, fragmentLength, 0)
    else if kp >= kl then SearchFrom(alignments, fragmentLength, keep, hit, pp, kl + 1, 0)
    else if hit(Candidate(pp, kl, kp)) then Some(Candidate(pp, kl, kp))
    else SearchFrom(alignments, fragmentLength, keep, hit, pp, kl, kp + 1)
  }

  /** What `SearchFrom` finds is a visited candidate at or after the resume
      point that passes both tests. */
  lemma {:induction false} SearchFromFinds(alignments: nat, fragmentLength: nat, keep: nat -> bool, hit: Candidate -> bool,
                                           pp: nat, kl: nat, kp: nat)
    requires fragmentLength <= kl
    ensures var r := SearchFrom(alignments, fragmentLength, keep, hit, pp, kl, kp);
            r.Some? ==> Visited(alignments, fragmentLength, r.value) && keep(r.value.pp) && hit(r.value)
                        && !Precedes(r.value, Candidate(pp, kl, kp))
    decreases alignments - pp, MaxKeyLength - kl, kl - kp
  {
    if pp >= alignments {
    } else if !keep(pp) || kl >= MaxKeyLength {
      SearchFromFinds(alignments, fragmentLength, keep, hit, pp + 1, fragmentLength, 0);
    } else if kp >= kl {
      SearchFromFinds(alignments, fragmentLength, keep, hit, pp, kl + 1, 0);
    } else if !hit(Candidate(pp, kl, kp)) {
      SearchFromFinds(alignments, fragmentLength, keep, hit, pp, kl, kp + 1);
    }
  }

  /** A visited candidate at or after the resume point and before the result
      of `SearchFrom` (anywhere after the resume point, when there is no
      result) fails `keep` or `hit`. */
  lemma {:induction false} SearchFromFirst(alignments: nat, fragmentLength: nat, keep: nat -> bool, hit: Candidate -> bool,
                                           pp: nat, kl: nat, kp: nat, d: Candidate)
    requires fragmentLength <= kl
    requires Visited(alignments, fragmentLength, d) && !Precedes(d, Candidate(pp, kl, kp))
    requires SearchFrom(alignments, fragmentLength, keep, hit, pp, kl, kp).None?
             || Precedes(d, SearchFrom(alignments, fragmentLength, keep, hit, pp, kl, kp).value)
    ensures !(keep(d.pp) && hit(d))
    decreases alignments - pp, MaxKeyLength - kl, kl - kp
  {
    if pp >= alignments {
    } else if !keep(pp) || kl >= MaxKeyLength {
      if d.pp != pp {
        SearchFromFirst(alignments, fragmentLength, keep, hit, pp + 1, fragmentLength, 0, d);
      }
    } else if kp >= kl {
      if d.pp != pp || d.kl != kl {
        SearchFromFirst(alignments, fragmentLength, keep, hit, pp, kl + 1, 0, d);
      }
    } else if hit(Candidate(pp, kl, kp)) {
    } else if d != Candidate(pp, kl, kp) {
      SearchFromFirst(alignments, fragmentLength, keep, hit, pp, kl, kp + 1, d);
    }
  }

  /** The number of alignments `find_xor_key` tries: `pp` stops one short of
      `|data| - |known|`, so the last alignment is never tried. */
  function Alignments(data: seq<bv8>, known: seq<bv8>): nat {
    if |known| < |data| then |data| - |known| else 0
  }

  /** The candidates the loops of `find_xor_key` visit. */
  predicate InRange(data: seq<bv8>, known: seq<bv8>, c: Candidate) {
    Visited(Alignments(data, known), |known|, c)
  }

  function CandidateKey(data: seq<bv8>, known: seq<bv8>, c: Candidate): seq<bv8>
    requires InRange(data, known, c)
  {
    ExpandedKey(PartialKey(data, known, c.pp), c.kl, c.kp)
  }

  /** The pruning test on a partial key. */
  predicate KeepsPartialKey(pk: seq<bv8>) {
    !PrintableKey || AllPrintable(pk)
  }

  /** The two tests on a decryption: printable, and the truth value of
      `known_plaintext.find(decrypted_text)`. */
  predicate Accepted(known: seq<bv8>, decrypted: seq<bv8>)
    requires |known| < NPos
  {
    AllPrintable(decrypted) && Find(known, decrypted) != 0
  }

  /** The candidate passes every test the loop body applies to it. */
  predicate Hit(data: seq<bv8>, known: seq<bv8>, c: Candidate)
    requires InRange(data, known, c)
  {
    KeepsPartialKey(PartialKey(data, known, c.pp))
    && Accepted(known, Decrypt(data, CandidateKey(data, known, c)))
  }

  /** The pruning test of `find_xor_key`, as a test on alignments. */
  function KeepTest(data: seq<bv8>, known: seq<bv8>): nat -> bool {
    (pp: nat) => pp + |known| <= |data| && KeepsPartialKey(PartialKey(data, known, pp))
  }

  /** The tests of `find_xor_key` on a candidate, as one test. */
  function HitTest(data: seq<bv8>, known: seq<bv8>): Candidate -> bool {
    c => InRange(data, known, c) && Hit(data, known, c)
  }

  /** The search of `find_xor_key` resumed at (`pp`, `kl`, `kp`). */
  function Search(data: seq<bv8>, known: seq<bv8>, pp: nat, kl: nat, kp: nat): Option<Candidate>
    requires |known| <= kl
  {
    SearchFrom(Alignments(data, known), |known|, KeepTest(data, known), HitTest(data, known), pp, kl, kp)
  }

  /** Where the whole search of `find_xor_key` stops. */
  function FirstHit(data: seq<bv8>, known: seq<bv8>): Option<Candidate> {
    Search(data, known, 0, |known|, 0)
  }

  // The steps of the nested loops of `find_xor_key`, one lemma each.

  lemma SearchEnds(data: seq<bv8>, known: seq<bv8>, pp: nat)
    requires Alignments(data, known) <= pp
    ensures Search(data, known, pp, |known|, 0) == None
  {
  }

  lemma SearchSkipsAlignment(data: seq<bv8>, known: seq<bv8>, pp: nat)
    requires pp < Alignments(data, known) && !KeepsPartialKey(PartialKey(data, known, pp))
    ensures Search(data, known, pp, |known|, 0) == Search(data, known, pp + 1, |known|, 0)
  {
  }

  lemma SearchNextAlignment(data: seq<bv8>, known: seq<bv8>, pp: nat, kl: nat)
    requires pp < Alignments(data, known) && |known| <= kl && MaxKeyLength <= kl
    ensures Search(data, known, pp, kl, 0) == Search(data, known, pp + 1, |known|, 0)
  {
  }

  lemma SearchNextKeyLength(data: seq<bv8>, known: seq<bv8>, pp: nat, kl: nat)
    requires pp < Alignments(data, known) && KeepsPartialKey(PartialKey(data, known, pp))
    requires |known| <= kl < MaxKeyLength
    ensures Search(data, known, pp, kl, kl) == Search(data, known, pp, kl + 1, 0)
  {
  }

  lemma SearchNextRotation(data: seq<bv8>, known: seq<bv8>, pp: nat, kl: nat, kp: nat)
    requires InRange(data, known, Candidate(pp, kl, kp)) && KeepsPartialKey(PartialKey(data, known, pp))
    requires !Hit(data, known, Candidate(pp, kl, kp))
    ensures Search(data, known, pp, kl, kp) == Search(data, known, pp, kl, kp + 1)
  {
  }

  lemma SearchStops(data: seq<bv8>, known: seq<bv8>, pp: nat, kl: nat, kp: nat)
    requires InRange(data, known, Candidate(pp, kl, kp)) && KeepsPartialKey(PartialKey(data, known, pp))
    requires Hit(data, known, Candidate(pp, kl, kp))
    ensures Search(data, known, pp, kl, kp) == Some(Candidate(pp, kl, kp))
  {
  }

  /** The first hit is a hit, every candidate before it is not, and there is
      no hit at all exactly when the search finds nothing. */
  lemma FirstHitIsFirst(data: seq<bv8>, known: seq<bv8>)
    ensures FirstHit(data, known).None? <==> forall d :: InRange(data, known, d) ==> !Hit(data, known, d)
    ensures FirstHit(data, known).Some? ==>
              var c := FirstHit(data, known).value;
              InRange(data, known, c) && Hit(data, known, c)
              && forall d :: InRange(data, known, d) && Precedes(d, c) ==> !Hit(data, known, d)
  {
    var keep, hit := KeepTest(data, known), HitTest(data, known);
    forall d | InRange(data, known, d) && (FirstHit(data, known).None? || Precedes(d, FirstHit(data, known).value))
      ensures !Hit(data, known, d)
    {
      SearchFromFirst(Alignments(data, known), |known|, keep, hit, 0, |known|, 0, d);
      assert Hit(data, known, d) ==> keep(d.pp) && hit(d);
    }
    SearchFromFinds(Alignments(data, known), |known|, keep, hit, 0, |known|, 0);
    if FirstHit(data, known).Some? {
      var c := FirstHit(data, known).value;
      assert hit(c);
    }
  }

  /** The search stops only at a candidate the loops visit. */
  lemma FirstHitInRange(data: seq<bv8>, known: seq<bv8>)
    ensures FirstHit(data, known).Some? ==> InRange(data, known, FirstHit(data, known).value)
  {
    SearchFromFinds(Alignments(data, known), |known|, KeepTest(data, known), HitTest(data, known), 0, |known|, 0);
  }

  /** The value `find_xor_key` returns, on the inputs where the program is
      defined (`FragmentFits`). Outside them the program wraps around and
      reads past the buffer, and the empty result here is not the program's. */
  function FindXorKeySpec(data: seq<bv8>, known: seq<bv8>): seq<bv8> {
    if |known| > MaxKeyLength then []
    else match FirstHit(data, known)
      case None => []
      case Some(c) => FirstHitInRange(data, known); CandidateKey(data, known, c)
  }

  /** The result is the key of the first hit in search order, and is empty
      exactly when no candidate is a hit. */
  lemma FindXorKeyIsFirstHit(data: seq<bv8>, known: seq<bv8>)
    ensures FindXorKeySpec(data, known) == [] <==> forall d :: InRange(data, known, d) ==> !Hit(data, known, d)
    ensures FindXorKeySpec(data, known) != [] ==>
              exists c :: InRange(data, known, c) && Hit(data, known, c)
                && FindXorKeySpec(data, known) == CandidateKey(data, known, c)
                && forall d :: InRange(data, known, d) && Precedes(d, c) ==> !Hit(data, known, d)
  {
    FirstHitIsFirst(data, known);
    if FirstHit(data, known).Some? {
      var c := FirstHit(data, known).value;
      ExpandedKeyShape(PartialKey(data, known, c.pp), c.kl, c.kp);
    }
  }

  /** A non-empty result decrypts the whole buffer to printable bytes, is
      between the fragment's length and that plus three bytes per padding
      unit, and is the expanded key of a candidate whose partial key, of the
      fragment's length, is printable. */
  lemma FoundKeyDecryptsPrintably(data: seq<bv8>, known: seq<bv8>)
    requires FindXorKeySpec(data, known) != []
    ensures AllPrintable(Decrypt(data, FindXorKeySpec(data, known)))
    ensures |known| <= |FindXorKeySpec(data, known)| <= |known| + 3 * (MaxKeyLength - 1 - |known|)
    ensures exists c :: InRange(data, known, c) && AllPrintable(PartialKey(data, known, c.pp))
                        && FindXorKeySpec(data, known) == CandidateKey(data, known, c)
  {
    FindXorKeyIsFirstHit(data, known);
    var c :| InRange(data, known, c) && Hit(data, known, c)
             && FindXorKeySpec(data, known) == CandidateKey(data, known, c);
    ExpandedKeyShape(PartialKey(data, known, c.pp), c.kl, c.kp);
  }

  /** The length guard and the loop bounds: on the inputs where the program is
      defined, a fragment of `MaxKeyLength` bytes or more, or a buffer exactly
      as long as the fragment, gives the empty key. */
  lemma FindXorKeyEmptyCases(data: seq<bv8>, known: seq<bv8>)
    requires FragmentFits(data, known)
    requires |known| >= MaxKeyLength || |data| == |known|
    ensures FindXorKeySpec(data, known) == []
  {
    FindXorKeyIsFirstHit(data, known);
  }

  /** Every decryption the loop tests is longer than the fragment, so the
      test `known_plaintext.find(decrypted_text)` returns `NPos` and never rejects: a candidate is a hit
      exactly when its partial key and its decryption are printable. */
  lemma FindCheckNeverRejects(data: seq<bv8>, known: seq<bv8>, c: Candidate)
    requires InRange(data, known, c)
    ensures Find(known, Decrypt(data, CandidateKey(data, known, c))) == NPos
    ensures Hit(data, known, c) <==>
              AllPrintable(PartialKey(data, known, c.pp)) && AllPrintable(Decrypt(data, CandidateKey(data, known, c)))
  {
    ExpandedKeyShape(PartialKey(data, known, c.pp), c.kl, c.kp);
    DecryptAt(data, CandidateKey(data, known, c));
  }

  /** Decrypting with a wildcard-marked byte twice gives back the operand, or
      the wildcard when the XOR itself produced one. */
  lemma MaskedXorTwice(d: bv8, k: bv8)
    ensures MaskedXor(d, MaskedXor(d, k)) == (if d ^ k == IgnoreCode then IgnoreCode else k)
  {
  }

  /** If `pp + kp` is a multiple of `n`, byte `pp + j` of a buffer meets the
      key at the position a left rotation by `kp` fills from position `j`. */
  lemma AlignedIndex(pp: nat, kp: nat, j: nat, n: nat)
    requires n > 0 && (pp + kp) % n == 0 && j < n
    ensures ((pp + j) % n + kp) % n == j
  {
    var q, q2 := (pp + kp) / n, (pp + j) / n;
    var idx := (pp + j) % n;
    assert pp + kp == n * q;
    assert pp + j == n * q2 + idx;
    assert n * q - n * q2 == n * (q - q2);
    ModUnique(idx + kp, n, q - q2, j);
  }

  /** When the rotation puts the partial key back at alignment `pp`, the key
      byte that meets data byte `pp + j` is byte `j` of the partial key. */
  lemma AlignedKeyByte(data: seq<bv8>, known: seq<bv8>, c: Candidate, j: nat)
    requires InRange(data, known, c)
    requires (c.pp + c.kp) % |CandidateKey(data, known, c)| == 0
    requires j < |known|
    ensures CandidateKey(data, known, c)[(c.pp + j) % |CandidateKey(data, known, c)|]
         == MaskedXor(data[c.pp + j], known[j])
  {
    var pk := PartialKey(data, known, c.pp);
    var n := |CandidateKey(data, known, c)|;
    AlignedIndex(c.pp, c.kp, j, n);
    RotateLeftAt(PaddedKey(pk, c.kl), c.kp, (c.pp + j) % n);
    PartialKeyAt(data, known, c.pp);
  }

  /** When the rotation puts the partial key back at alignment `pp`, the trial
      decryption reproduces the fragment there, up to wildcards. */
  lemma AlignedCandidateReproducesFragment(data: seq<bv8>, known: seq<bv8>, c: Candidate, j: nat)
    requires InRange(data, known, c)
    requires (c.pp + c.kp) % |CandidateKey(data, known, c)| == 0
    requires j < |known|
    ensures Decrypt(data, CandidateKey(data, known, c))[c.pp + j] ==
              if data[c.pp + j] ^ known[j] == IgnoreCode then IgnoreCode else known[j]
  {
    AlignedKeyByte(data, known, c, j);
    DecryptAt(data, CandidateKey(data, known, c));
    MaskedXorTwice(data[c.pp + j], known[j]);
  }

  // ---------------------------------------------------------------------
  // find_xor_key

  /** What `find_xor_key` demands of its caller: after the length guard, the
      unsigned `data.size() - known_plaintext.length()` must not wrap around. */
  predicate FragmentFits(data: seq<bv8>, known: seq<bv8>) {
    |known| > MaxKeyLength || |known| <= |data|
  }

  /** The `j` loop of `find_xor_key`: the partial key for alignment `pp`. */
  method DerivePartialKey(data: seq<bv8>, known: seq<bv8>, pp: nat) returns (partialKey: seq<bv8>)
    requires pp + |known| <= |data|
    ensures partialKey == PartialKey(data, known, pp)
  {
    partialKey := [];
    var j := 0;
    while j < |known|
      invariant 0 <= j <= |known|
      invariant partialKey + PartialKeyFrom(data, known, pp, j) == PartialKey(data, known, pp)
    {
      if known[j] == IgnoreCode {
        partialKey := partialKey + [IgnoreCode];
      } else {
        partialKey := partialKey + [data[pp + j] ^ known[j]];
      }
      j := j + 1;
    }
  }

  /** The construction of `expanded_key` in `find_xor_key`: pad with "255" and
      rotate left by `kp` with `std::rotate`. */
  method Expand(partialKey: seq<bv8>, kl: nat, kp: nat) returns (expandedKey: seq<bv8>)
    requires |partialKey| <= kl && kp < kl
    ensures expandedKey == ExpandedKey(partialKey, kl, kp)
    ensures |expandedKey| == |partialKey| + 3 * (kl - |partialKey|)
  {
    var padding := MultiplyString(IgnoreCodeText, kl - |partialKey|);
    expandedKey := partialKey + padding;
    expandedKey := expandedKey[kp..] + expandedKey[..kp];
  }

  /** The `x` loop of `find_xor_key`: decrypt the whole buffer with the key. */
  method TrialDecrypt(data: seq<bv8>, expandedKey: seq<bv8>) returns (decrypted: seq<bv8>)
    requires |expandedKey| > 0
    ensures decrypted == Decrypt(data, expandedKey)
  {
    decrypted := [];
    var x := 0;
    while x < |data|
      invariant 0 <= x <= |data|
      invariant decrypted + DecryptFrom(data, expandedKey, x) == Decrypt(data, expandedKey)
    {
      if expandedKey[x % |expandedKey|] == IgnoreCode {
        decrypted := decrypted + [IgnoreCode];
      } else {
        decrypted := decrypted + [data[x] ^ expandedKey[x % |expandedKey|]];
      }
      x := x + 1;
    }
  }

  /** The body of the `kp` loop of `find_xor_key`: build the expanded key,
      decrypt the whole buffer with it and apply the two tests, `is_printable`
      and the truth value of `known_plaintext.find(decrypted_text)`. */
  method TryCandidate(data: seq<bv8>, known: seq<bv8>, partialKey: seq<bv8>, pp: nat, kl: nat, kp: nat)
    returns (found: bool, expandedKey: seq<bv8>)
    requires InRange(data, known, Candidate(pp, kl, kp))
    requires partialKey == PartialKey(data, known, pp) && KeepsPartialKey(partialKey)
    ensures expandedKey == CandidateKey(data, known, Candidate(pp, kl, kp))
    ensures found <==> Hit(data, known, Candidate(pp, kl, kp))
  {
    expandedKey := Expand(partialKey, kl, kp);
    var decrypted := TrialDecrypt(data, expandedKey);
    var printable := IsPrintable(decrypted);
    found := false;
    if printable {
      if Find(known, decrypted) != 0 {
        found := true;
      }
    }
  }

  /** The nested `pp`/`kl`/`kp` loops of `find_xor_key`, returning the first
      expanded key whose decryption passes both tests, or the empty key. */
  method FindXorKey(data: seq<bv8>, known: seq<bv8>) returns (key: seq<bv8>)
    requires FragmentFits(data, known)
    ensures key == FindXorKeySpec(data, known)
  {
    if |known| > MaxKeyLength {
      return [];
    }
    var pp := 0;
    while pp < |data| - |known|
      invariant Search(data, known, pp, |known|, 0) == FirstHit(data, known)
    {
      var partialKey := DerivePartialKey(data, known, pp);
      var keepKey := true;
      if PrintableKey {
        keepKey := IsPrintable(partialKey);
      }
      if keepKey {
        var kl := |partialKey|;
        while kl < MaxKeyLength
          invariant |known| <= kl
          invariant Search(data, known, pp, kl, 0) == FirstHit(data, known)
        {
          var kp := 0;
          while kp < kl
            invariant kp <= kl
            invariant Search(data, known, pp, kl, kp) == FirstHit(data, known)
          {
            var found, expandedKey := TryCandidate(data, known, partialKey, pp, kl, kp);
            if found {
              SearchStops(data, known, pp, kl, kp);
              return expandedKey;
            }
            SearchNextRotation(data, known, pp, kl, kp);
            kp := kp + 1;
          }
          SearchNextKeyLength(data, known, pp, kl);
          kl := kl + 1;
        }
        SearchNextAlignment(data, known, pp, kl);
      } else {
        SearchSkipsAlignment(data, known, pp);
      }
      pp := pp + 1;
    }
    SearchEnds(data, known, pp);
    return [];
  }

  // ---------------------------------------------------------------------
  // find_xor_key_list

  /** The first non-empty `find(k)` over the fragments `knowns`, in order. */
  function FirstFound(find: seq<bv8> -> seq<bv8>, knowns: seq<seq<bv8>>): seq<bv8>
    decreases |knowns|
  {
    if |knowns| == 0 then []
    else
      var key := find(knowns[0]);
      if |key| > 0 then key else FirstFound(find, knowns[1..])
  }

  /** `FirstFound` returns `find` of the first fragment for which it is
      non-empty, after every earlier fragment gave the empty key, and is
      empty exactly when every fragment does. */
  lemma {:induction false} FirstFoundIsFirstSuccess(find: seq<bv8> -> seq<bv8>, knowns: seq<seq<bv8>>)
    ensures FirstFound(find, knowns) == [] <==> forall i :: 0 <= i < |knowns| ==> find(knowns[i]) == []
    ensures FirstFound(find, knowns) != [] ==>
              exists i :: 0 <= i < |knowns| && FirstFound(find, knowns) == find(knowns[i])
                && forall j :: 0 <= j < i ==> find(knowns[j]) == []
    decreases |knowns|
  {
    if |knowns| > 0 && find(knowns[0]) == [] {
      var tail := knowns[1..];
      FirstFoundIsFirstSuccess(find, tail);
      if FirstFound(find, tail) != [] {
        var i :| 0 <= i < |tail| && FirstFound(find, tail) == find(tail[i])
                 && forall j :: 0 <= j < i ==> find(tail[j]) == [];
        assert knowns[i + 1] == tail[i];
        forall j | 0 <= j < i + 1
          ensures find(knowns[j]) == []
        {
          if j > 0 {
            assert knowns[j] == tail[j - 1];
          }
        }
      } else {
        forall i | 0 <= i < |knowns|
          ensures find(knowns[i]) == []
        {
          if i > 0 {
            assert knowns[i] == tail[i - 1];
          }
        }
      }
    }
  }

  /** `find_xor_key` on a fixed buffer, as a function of the fragment. */
  function FindXorKeyOn(data: seq<bv8>): seq<bv8> -> seq<bv8> {
    known => FindXorKeySpec(data, known)
  }

  /** The value `find_xor_key_list` returns. */
  function FindXorKeyListSpec(data: seq<bv8>, knowns: seq<seq<bv8>>): seq<bv8> {
    FirstFound(FindXorKeyOn(data), knowns)
  }

  /** The list search returns the key of the first fragment that yields one,
      after every earlier fragment yielded none, and is empty exactly when
      every fragment fails (in particular for an empty list). */
  lemma FindXorKeyListIsFirstSuccess(data: seq<bv8>, knowns: seq<seq<bv8>>)
    ensures FindXorKeyListSpec(data, knowns) == [] <==>
              forall i :: 0 <= i < |knowns| ==> FindXorKeySpec(data, knowns[i]) == []
    ensures FindXorKeyListSpec(data, knowns) != [] ==>
              exists i :: 0 <= i < |knowns| && FindXorKeyListSpec(data, knowns) == FindXorKeySpec(data, knowns[i])
                && forall j :: 0 <= j < i ==> FindXorKeySpec(data, knowns[j]) == []
  {
    FirstFoundIsFirstSuccess(FindXorKeyOn(data), knowns);
  }

  /** The loop of `find_xor_key_list` with its early return. Only the
      fragments it reaches, those up to the first that yields a key, must fit
      the buffer. */
  method FindXorKeyList(data: seq<bv8>, knowns: seq<seq<bv8>>) returns (key: seq<bv8>)
    requires forall i :: 0 <= i < |knowns| && (forall j :: 0 <= j < i ==> FindXorKeySpec(data, knowns[j]) == [])
                         ==> FragmentFits(data, knowns[i])
    ensures key == FindXorKeyListSpec(data, knowns)
  {
    ghost var find := FindXorKeyOn(data);
    var i := 0;
    while i < |knowns|
      invariant 0 <= i <= |knowns|
      invariant FirstFound(find, knowns[i..]) == FirstFound(find, knowns)
      invariant forall j :: 0 <= j < i ==> FindXorKeySpec(data, knowns[j]) == []
    {
      var xorKey := FindXorKey(data, knowns[i]);
      assert knowns[i..][0] == knowns[i] && knowns[i..][1..] == knowns[i + 1..];
      assert find(knowns[i]) == xorKey;
      if |xorKey| > 0 {
        return xorKey;
      }
      i := i + 1;
    }
    return [];
  }
}
