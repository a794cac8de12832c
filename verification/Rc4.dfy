/** The RC4 stream cipher of `crates/engine/src/crypto/rc4.rs`. `Stream` and the functions
    on it are the textbook cipher; `Rc4` is the in-place implementation. */
module Rc4s {
  import opened Bits

  type Octet = x: int | 0 <= x < 256

  /** A permutation table with its two indices. */
  datatype Stream = Stream(s: seq<Octet>, i: Octet, j: Octet)

  type Cipher = st: Stream | |st.s| == 256 witness Stream(seq(256, _ => 0), 0, 0)

  const MSE_DISCARD: nat := 1024

  function Swap(s: seq<Octet>, i: nat, j: nat): (r: seq<Octet>)
    requires i < |s| && j < |s|
    ensures |r| == |s| && r[i] == s[j] && r[j] == s[i]
    ensures forall k :: 0 <= k < |s| && k != i && k != j ==> r[k] == s[k]
  {
    s[i := s[j]][j := s[i]]
  }

  /** One round of the generator. */
  function Turn(st: Cipher): Cipher {
    var i := (st.i + 1) % 256;
    var j := (st.j + st.s[i]) % 256;
    Stream(Swap(st.s, i, j), i, j)
  }

  /** The keystream byte of a state just turned. */
  function Output(st: Cipher): byte {
    st.s[(st.s[st.i] as int + st.s[st.j] as int) % 256] as byte
  }

  function Advance(st: Cipher, n: nat): Cipher {
    if n == 0 then st else Turn(Advance(st, n - 1))
  }

  /** Byte `k` of the keystream. */
  function KeyByte(st: Cipher, k: nat): byte {
    Output(Advance(st, k + 1))
  }

  /** Encryption and decryption alike: XOR with the keystream. */
  function Crypt(st: Cipher, data: seq<byte>): (r: seq<byte>)
    ensures |r| == |data|
  {
    seq(|data|, k requires 0 <= k < |data| => data[k] ^ KeyByte(st, k))
  }

  /** The key schedule after `n` rounds. */
  function Schedule(key: seq<byte>, n: nat): (r: (seq<Octet>, Octet))
    requires key != [] && n <= 256
    ensures |r.0| == 256
  {
    if n == 0 then (seq(256, k requires 0 <= k < 256 => k), 0)
    else
      var (s, j0) := Schedule(key, n - 1);
      var j := (j0 + s[n - 1] + key[(n - 1) % |key|] as int) % 256;
      (Swap(s, n - 1, j), j)
  }

  lemma ScheduleStart(key: seq<byte>, s: seq<Octet>)
    requires key != [] && |s| == 256 && forall k :: 0 <= k < 256 ==> s[k] == k
    ensures Schedule(key, 0) == (s, 0)
  {
    assert s == seq<Octet>(256, k requires 0 <= k < 256 => k);
  }

  lemma ScheduleNext(key: seq<byte>, n: nat)
    requires key != [] && n < 256
    ensures var (s, j0) := Schedule(key, n);
            var j := (j0 + s[n] + key[n % |key|] as int) % 256;
            Schedule(key, n + 1) == (Swap(s, n, j), j)
  {
    hide Swap;
  }

  function Keyed(key: seq<byte>): Cipher
    requires key != []
  {
    Stream(Schedule(key, 256).0, 0, 0)
  }

  /** The stream MSE uses: the first 1024 bytes are thrown away. */
  function KeyedMse(key: seq<byte>): Cipher
    requires key != []
  {
    Advance(Keyed(key), MSE_DISCARD)
  }

  // ---------------------------------------------------------------- what a round does

  /** The table `t` is `s` with the entries at `i` and `j` exchanged. */
  ghost predicate Exchanged(s: seq<Octet>, t: seq<Octet>, i: nat, j: nat) {
    && i < |s| == |t| && j < |s| && t[i] == s[j] && t[j] == s[i]
    && forall k :: 0 <= k < |s| && k != i && k != j ==> t[k] == s[k]
  }

  /** A round of the key schedule moves the second index by the entry and the key byte and
      exchanges the two entries. */
  lemma ScheduleRound(key: seq<byte>, n: nat)
    requires key != [] && n < 256
    ensures forall k :: 0 <= k < 256 ==> Schedule(key, 0).0[k] == k
    ensures Schedule(key, 0).1 == 0
    ensures var (s, i) := Schedule(key, n);
            var (t, j) := Schedule(key, n + 1);
            j == (i + s[n] + key[n % |key|] as int) % 256 && Exchanged(s, t, n, j)
  {
    ScheduleNext(key, n);
    hide Schedule;
    assert Schedule(key, 0).0 == seq<Octet>(256, k requires 0 <= k < 256 => k) && Schedule(key, 0).1 == 0 by {
      ScheduleZero(key);
    }
  }

  lemma ScheduleZero(key: seq<byte>)
    requires key != []
    ensures Schedule(key, 0) == (seq<Octet>(256, k requires 0 <= k < 256 => k), 0)
  {}

  /** A round of the generator steps the first index, moves the second by the entry there,
      exchanges the two entries, and gives out the entry at their sum. */
  lemma TurnRound(st: Cipher, k: nat)
    ensures var (a, b) := (Advance(st, k), Advance(st, k + 1));
            && b.i == (a.i + 1) % 256 && b.j == (a.j + a.s[b.i]) % 256 && Exchanged(a.s, b.s, b.i, b.j)
            && KeyByte(st, k) == b.s[(b.s[b.i] as int + b.s[b.j] as int) % 256] as byte
  {
    AdvanceOne(st, k);
    hide Advance, KeyByte, Swap;
  }

  lemma TurnIs(st: Cipher, t: Cipher)
    requires t == Turn(st)
    ensures t.i == (st.i + 1) % 256 && t.j == (st.j + st.s[t.i]) % 256 && Exchanged(st.s, t.s, t.i, t.j)
    ensures Output(t) == t.s[(t.s[t.i] as int + t.s[t.j] as int) % 256] as byte
  {
    hide Swap;
  }

  lemma TurnMakes(st: Cipher, t: Cipher)
    requires t.i == (st.i + 1) % 256 && t.j == (st.j + st.s[t.i]) % 256
    requires t.s == st.s[t.i := st.s[t.j]][t.j := st.s[t.i]]
    ensures t == Turn(st)
  {}

  // three rounds from the untouched table
  lemma FirstRounds(s: seq<Octet>, a: Cipher, b: Cipher, c: Cipher)
    requires |s| == 256 && forall k :: 0 <= k < 256 ==> s[k] == k
    requires a.i == 1 && a.j == s[1] && Exchanged(s, a.s, a.i, a.j)
    requires b.i == 2 && b.j == (a.j + a.s[2]) % 256 && Exchanged(a.s, b.s, b.i, b.j)
    requires c.i == 3 && c.j == (b.j + b.s[3]) % 256 && Exchanged(b.s, c.s, c.i, c.j)
    ensures a.s[(a.s[a.i] as int + a.s[a.j] as int) % 256] == 2
    ensures b.s[(b.s[b.i] as int + b.s[b.j] as int) % 256] == 5
    ensures c.s[(c.s[c.i] as int + c.s[c.j] as int) % 256] == 7
  {
    assert a.j == 1 && a.s[1] == 1 && a.s[2] == 2 && a.s[3] == 3 && a.s[5] == 5 && a.s[7] == 7;
    assert b.j == 3 && b.s[2] == 3 && b.s[3] == 2 && b.s[5] == 5 && b.s[7] == 7;
    assert c.j == 5 && c.s[3] == 5 && c.s[5] == 2 && c.s[7] == 7;
  }

  /** From the untouched table the keystream begins 2, 5, 7. */
  lemma FirstBytes(st: Cipher)
    requires st.i == 0 && st.j == 0 && forall k :: 0 <= k < 256 ==> st.s[k] == k
    ensures KeyByte(st, 0) == 2 && KeyByte(st, 1) == 5 && KeyByte(st, 2) == 7
  {
    hide Advance, KeyByte, Exchanged;
    AdvanceNone(st);
    TurnRound(st, 0);
    TurnRound(st, 1);
    TurnRound(st, 2);
    FirstRounds(st.s, Advance(st, 1), Advance(st, 2), Advance(st, 3));
  }

  // ---------------------------------------------------------------- laws

  lemma {:induction false} AdvanceAdd(st: Cipher, m: nat, n: nat)
    ensures Advance(Advance(st, m), n) == Advance(st, m + n)
  {
    hide Turn;
    if n > 0 {
      AdvanceAdd(st, m, n - 1);
    }
  }

  lemma AdvanceNone(st: Cipher)
    ensures Advance(st, 0) == st
  {}

  lemma AdvanceOne(st: Cipher, k: nat)
    ensures Advance(st, k + 1) == Turn(Advance(st, k)) && KeyByte(st, k) == Output(Turn(Advance(st, k)))
  {}

  lemma KeyByteLater(st: Cipher, m: nat, k: nat)
    ensures KeyByte(st, m + k) == KeyByte(Advance(st, m), k)
  {
    hide Output, Advance;
    AdvanceAdd(st, m, k + 1);
  }

  /** Each byte is XORed with its own keystream byte. */
  lemma CryptAt(st: Cipher, data: seq<byte>, k: nat)
    requires k < |data|
    ensures |Crypt(st, data)| == |data| && Crypt(st, data)[k] == data[k] ^ KeyByte(st, k)
  {
    hide KeyByte;
  }

  lemma CryptFront(st: Cipher, a: seq<byte>, b: seq<byte>, k: nat)
    requires k < |a|
    ensures Crypt(st, a + b)[k] == Crypt(st, a)[k]
  {
    hide Crypt, KeyByte;
    CryptAt(st, a + b, k);
    CryptAt(st, a, k);
  }

  lemma CryptBack(st: Cipher, a: seq<byte>, b: seq<byte>, k: nat)
    requires k < |b|
    ensures Crypt(st, a + b)[|a| + k] == Crypt(Advance(st, |a|), b)[k]
  {
    hide Crypt, KeyByte, Advance;
    CryptAt(st, a + b, |a| + k);
    CryptAt(Advance(st, |a|), b, k);
    KeyByteLater(st, |a|, k);
  }

  /** The keystream of a concatenation is the keystream, then its continuation. */
  lemma CryptAppend(st: Cipher, a: seq<byte>, b: seq<byte>)
    ensures Crypt(st, a + b) == Crypt(st, a) + Crypt(Advance(st, |a|), b)
  {
    hide Crypt, Advance;
    var whole, front, back := Crypt(st, a + b), Crypt(st, a), Crypt(Advance(st, |a|), b);
    forall k | 0 <= k < |whole| ensures whole[k] == (front + back)[k] {
      if k < |a| {
        CryptFront(st, a, b, k);
      } else {
        CryptBack(st, a, b, k - |a|);
      }
    }
  }

  lemma XorTwice(a: byte, k: byte)
    ensures (a ^ k) ^ k == a
  {}

  /** Decrypting with the same stream gives back what was encrypted. */
  lemma CryptTwice(st: Cipher, data: seq<byte>)
    ensures Crypt(st, Crypt(st, data)) == data
  {
    hide KeyByte;
    forall k | 0 <= k < |data| ensures Crypt(st, Crypt(st, data))[k] == data[k] {
      XorTwice(data[k], KeyByte(st, k));
    }
  }

  /** A prefix of the ciphertext decrypts to the prefix of the plaintext. */
  lemma CryptPrefix(st: Cipher, data: seq<byte>, n: nat)
    requires n <= |data|
    ensures Crypt(st, data[..n]) == Crypt(st, data)[..n]
  {
    hide KeyByte;
  }

  function Flatten(chunks: seq<seq<byte>>): seq<byte> {
    if chunks == [] then [] else chunks[0] + Flatten(chunks[1..])
  }

  /** What comes out when the stream is fed chunk by chunk. */
  function CryptChunks(st: Cipher, chunks: seq<seq<byte>>): seq<byte>
    decreases |chunks|
  {
    if chunks == [] then [] else Crypt(st, chunks[0]) + CryptChunks(Advance(st, |chunks[0]|), chunks[1..])
  }

  /** How the traffic is cut into chunks does not matter. */
  lemma {:induction false} ChunksAreOne(st: Cipher, chunks: seq<seq<byte>>)
    ensures CryptChunks(st, chunks) == Crypt(st, Flatten(chunks))
    decreases |chunks|
  {
    hide KeyByte, Advance;
    if chunks != [] {
      ChunksAreOne(Advance(st, |chunks[0]|), chunks[1..]);
      CryptAppend(st, chunks[0], Flatten(chunks[1..]));
    }
  }

  /** Two ends with equal streams: whatever is sent in whatever chunks, and received in
      whatever other chunks, decrypts to what was sent. */
  lemma DuplexDelivers(st: Cipher, sent: seq<seq<byte>>, received: seq<seq<byte>>)
    requires Flatten(received) == CryptChunks(st, sent)
    ensures CryptChunks(st, received) == Flatten(sent)
  {
    ChunksAreOne(st, sent);
    ChunksAreOne(st, received);
    CryptTwice(st, Flatten(sent));
  }

  /** The table stays a permutation of 0..255 through key schedule and generator, so every
      octet has exactly one place. */
  ghost predicate IsPermutation(s: seq<Octet>) {
    |s| == 256 && forall v: int :: 0 <= v < 256 ==> multiset(s)[v] == 1
  }

  lemma SwapKeeps(s: seq<Octet>, i: nat, j: nat)
    requires i < |s| && j < |s|
    ensures multiset(Swap(s, i, j)) == multiset(s)
  {}

  lemma {:induction false} IdentityCounts(n: nat, v: int)
    requires n <= 256 && 0 <= v
    ensures multiset(seq<Octet>(n, k requires 0 <= k < n => k))[v] == if v < n then 1 else 0
  {
    var all := seq<Octet>(n, k requires 0 <= k < n => k);
    if n > 0 {
      var front := seq<Octet>(n - 1, k requires 0 <= k < n - 1 => k);
      assert all == front + [n - 1];
      IdentityCounts(n - 1, v);
    }
  }

  lemma {:induction false} SchedulePermutes(key: seq<byte>, n: nat)
    requires key != [] && n <= 256
    ensures IsPermutation(Schedule(key, n).0)
  {
    hide Swap;
    if n == 0 {
      forall v: int | 0 <= v < 256 ensures multiset(Schedule(key, 0).0)[v] == 1 {
        IdentityCounts(256, v);
        assert Schedule(key, 0).0 == seq<Octet>(256, k requires 0 <= k < 256 => k);
      }
    } else {
      SchedulePermutes(key, n - 1);
      var (s, j0) := Schedule(key, n - 1);
      SwapKeeps(s, n - 1, (j0 + s[n - 1] + key[(n - 1) % |key|] as int) % 256);
    }
  }

  lemma {:induction false} AdvancePermutes(st: Cipher, n: nat)
    requires IsPermutation(st.s)
    ensures IsPermutation(Advance(st, n).s)
  {
    hide Turn;
    if n > 0 {
      AdvancePermutes(st, n - 1);
      TurnKeeps(Advance(st, n - 1));
    }
  }

  lemma TurnKeeps(st: Cipher)
    ensures multiset(Turn(st).s) == multiset(st.s)
  {
    hide Swap;
    SwapKeeps(st.s, (st.i + 1) % 256, (st.j + st.s[(st.i + 1) % 256]) % 256);
  }

  // ---------------------------------------------------------------- the implementation

  class Rc4 {
    const s: array<Octet>
    var i: Octet
    var j: Octet

    ghost predicate Valid()
      reads this
    {
      s.Length == 256
    }

    ghost function Now(): Cipher
      requires Valid()
      reads this, s
    {
      Stream(s[..], i, j)
    }

    constructor FromKey(key: seq<byte>)
      requires key != []
      ensures Valid() && fresh(s)
      ensures Now() == Keyed(key)
    {
      hide Schedule;
      s := new Octet[256](k requires 0 <= k < 256 => k);
      i, j := 0, 0;
      new;
      var jj: Octet := 0;
      ScheduleStart(key, s[..]);
      for n := 0 to 256
        invariant s.Length == 256 && i == 0 && j == 0
        invariant (s[..], jj) == Schedule(key, n)
      {
        ScheduleNext(key, n);
        jj := (jj + s[n] + key[n % |key|] as int) % 256;
        SwapAt(n, jj);
      }
    }

    /** `swap` on the table. */
    method SwapAt(a: nat, b: nat)
      requires a < s.Length && b < s.Length
      modifies s
      ensures s[..] == Swap(old(s[..]), a, b)
    {
      s[a], s[b] := s[b], s[a];
    }

    /** `new_mse`. */
    constructor Mse(key: seq<byte>)
      requires key != []
      ensures Valid() && fresh(s)
      ensures Now() == KeyedMse(key) && Now() == Advance(Keyed(key), 1024)
    {
      hide Advance, Schedule;
      var plain := new Rc4.FromKey(key);
      plain.DropKeystream(MSE_DISCARD);
      s := plain.s;
      i, j := plain.i, plain.j;
    }

    /** `clone`. */
    constructor Clone(other: Rc4)
      requires other.Valid()
      ensures Valid() && fresh(s)
      ensures Now() == other.Now()
    {
      s := new Octet[256](k requires 0 <= k < 256 reads other.s => other.s[k]);
      i, j := other.i, other.j;
    }

    /** `drop_keystream`. */
    method DropKeystream(n: nat)
      requires Valid()
      modifies this, s
      ensures Valid() && Now() == Advance(old(Now()), n)
    {
      ghost var st := Now();
      for k := 0 to n
        invariant Valid() && Now() == Advance(st, k)
      {
        TurnInplace();
      }
    }

    /** One round on the table itself. */
    method TurnInplace()
      requires Valid()
      modifies this, s
      ensures Valid() && Now() == Turn(old(Now()))
      ensures i == (old(i) + 1) % 256 && j == (old(j) + old(s[..])[i]) % 256
      ensures Exchanged(old(s[..]), s[..], i, j)
    {
      i := (i + 1) % 256;
      j := (j + s[i]) % 256;
      s[i], s[j] := s[j], s[i];
      TurnIs(old(Now()), Now());
    }

    /** `crypt_inplace` on the tail of a buffer: the bytes from `lo` on are XORed with the
        keystream, everything before is untouched. The buffer is not the cipher's own table. */
    method CryptInplace(data: array<byte>, lo: nat)
      requires Valid() && lo <= data.Length && data as object != s as object
      modifies this, s, data
      ensures Valid() && Now() == Advance(old(Now()), data.Length - lo)
      ensures data[..] == old(data[..lo]) + Crypt(old(Now()), old(data[lo..]))
    {
      hide Advance, KeyByte, Turn, Output;
      ghost var st, was := Now(), data[..];
      var k := lo;
      AdvanceNone(st);
      while k < data.Length
        invariant lo <= k <= data.Length && Valid() && Now() == Advance(st, k - lo)
        invariant forall p :: 0 <= p < lo || k <= p < data.Length ==> data[p] == was[p]
        invariant forall p :: lo <= p < k ==> data[p] == was[p] ^ KeyByte(st, p - lo)
      {
        AdvanceOne(st, k - lo);
        var key := NextByte();
        data[k] := data[k] ^ key;
        k := k + 1;
      }
      assert data[..] == was[..lo] + Crypt(st, was[lo..]);
    }

    /** One round with its byte: the sum of the two swapped entries is taken before the swap. */
    method NextByte() returns (key: byte)
      requires Valid()
      modifies this, s
      ensures Valid() && Now() == Turn(old(Now())) && key == Output(Now())
      ensures i == (old(i) + 1) % 256 && j == (old(j) + old(s[..])[i]) % 256
      ensures Exchanged(old(s[..]), s[..], i, j)
      ensures key == s[(s[i] as int + s[j] as int) % 256] as byte
    {
      hide Output, Exchanged, Turn, Swap;
      i := (i + 1) % 256;
      j := (j + s[i]) % 256;
      var si, sj := s[i], s[j];
      s[i] := sj;
      s[j] := si;
      TurnMakes(old(Now()), Now());
      TurnIs(old(Now()), Now());
      var sum := (si as int + sj as int) % 256;
      assert sum == (s[i] as int + s[j] as int) % 256;
      key := s[sum] as byte;
    }

    /** Encrypt or decrypt a whole buffer. */
    method CryptBytes(data: seq<byte>) returns (out: seq<byte>)
      requires Valid()
      modifies this, s
      ensures Valid() && Now() == Advance(old(Now()), |data|)
      ensures out == Crypt(old(Now()), data)
    {
      hide Advance, KeyByte;
      var buf := new byte[|data|](k requires 0 <= k < |data| => data[k]);
      assert buf[..] == data;
      CryptInplace(buf, 0);
      out := buf[..];
    }
  }
}
