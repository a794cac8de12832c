/** Path components on disk (`crates/engine/src/metainfo.rs`): what `normalize_path_component`
    makes of any text. */
module PathText {
  import opened Wrappers

  const MAX_COMPONENT_BYTES: nat := 255

  /** Separators and NUL never appear in a component. */
  predicate HardBad(c: char) {
    c == '/' || c == '\\' || c == '\0'
  }

  /** `is_control`. */
  predicate IsControl(c: char) {
    (c as int) < 0x20 || 0x7f <= (c as int) <= 0x9f
  }

  predicate Bad(c: char) {
    HardBad(c) || IsControl(c)
  }

  /** Bytes of a character in UTF-8. */
  function Utf8Len(c: char): (n: nat)
    ensures 1 <= n <= 4
  {
    if (c as int) < 0x80 then 1 else if (c as int) < 0x800 then 2 else if (c as int) < 0x10000 then 3 else 4
  }

  function ByteLen(s: string): nat {
    if s == "" then 0 else Utf8Len(s[0]) + ByteLen(s[1..])
  }

  /** The cleaning loop, from the rest `s` on: a run of bad characters becomes one underscore,
      none at the very front. */
  function Cleaned(s: string, out: string, prevUnderscore: bool): string
    decreases |s|
  {
    if s == "" then out
    else if Bad(s[0]) then
      if !prevUnderscore && out != "" then Cleaned(s[1..], out + "_", true)
      else Cleaned(s[1..], out, prevUnderscore)
    else Cleaned(s[1..], out + [s[0]], false)
  }

  /** What is trimmed from both ends of a cleaned name. */
  predicate Edge(c: char) {
    c == '.' || c == ' ' || c == '\t'
  }

  function TrimFront(s: string): (r: string)
    ensures r != "" ==> !Edge(r[0])
    ensures |r| <= |s| && r == s[|s| - |r|..] && forall k :: 0 <= k < |s| - |r| ==> Edge(s[k])
  {
    if s != "" && Edge(s[0]) then TrimFront(s[1..]) else s
  }

  function TrimBack(s: string): (r: string)
    ensures r != "" ==> !Edge(r[|r| - 1])
    ensures r <= s && forall k :: |r| <= k < |s| ==> Edge(s[k])
  {
    if s != "" && Edge(s[|s| - 1]) then TrimBack(s[..|s| - 1]) else s
  }

  /** `trim_matches`. */
  function Trimmed(s: string): string {
    TrimBack(TrimFront(s))
  }

  /** The longest prefix of at most `room` bytes that ends between characters. */
  function CutTo(s: string, room: nat): (r: string)
    ensures r <= s && ByteLen(r) <= room
    ensures r != s ==> ByteLen(r) + Utf8Len(s[|r|]) > room
  {
    if s == "" || Utf8Len(s[0]) > room then ""
    else
      var r := [s[0]] + CutTo(s[1..], room - Utf8Len(s[0]));
      assert r[1..] == CutTo(s[1..], room - Utf8Len(s[0]));
      r
  }

  /** What is trimmed from the end of a cut name. */
  predicate Tail(c: char) {
    c == '.' || c == ' ' || c == '_'
  }

  /** `trim_end_matches`. */
  function TrimTail(s: string): (r: string)
    ensures r != "" ==> !Tail(r[|r| - 1])
    ensures r <= s && forall k :: |r| <= k < |s| ==> Tail(s[k])
    ensures r == "" <==> forall k :: 0 <= k < |s| ==> Tail(s[k])
  {
    if s != "" && Tail(s[|s| - 1]) then TrimTail(s[..|s| - 1]) else s
  }

  datatype NameError = UnsafeOrEmpty

  /** `normalize_path_component`. */
  function Normalized(s: string): Result<string, NameError> {
    var out := Trimmed(Cleaned(s, "", false));
    if out == "" || out == "." || out == ".." then Err(UnsafeOrEmpty)
    else if ByteLen(out) > MAX_COMPONENT_BYTES then Ok(TrimTail(CutTo(out, MAX_COMPONENT_BYTES)))
    else Ok(out)
  }

  /** The loop of `normalize_path_component`, then its trimming and its cut. */
  method NormalizePathComponent(s: string) returns (r: Result<string, NameError>)
    ensures r == Normalized(s)
  {
    hide Bad, Trimmed, CutTo, TrimTail, ByteLen;
    var out := "";
    var prevUnderscore := false;
    var i := 0;
    assert s[0..] == s;
    while i < |s|
      invariant i <= |s| && Cleaned(s, "", false) == Cleaned(s[i..], out, prevUnderscore)
    {
      assert s[i..][1..] == s[i + 1..];
      if Bad(s[i]) {
        if !prevUnderscore && out != "" {
          out := out + "_";
          prevUnderscore := true;
        }
      } else {
        out := out + [s[i]];
        prevUnderscore := false;
      }
      i := i + 1;
    }
    out := Trimmed(out);
    if out == "" || out == "." || out == ".." {
      return Err(UnsafeOrEmpty);
    }
    if ByteLen(out) > MAX_COMPONENT_BYTES {
      return Ok(TrimTail(CutTo(out, MAX_COMPONENT_BYTES)));
    }
    return Ok(out);
  }

  // ---------------------------------------------------------------- what a component is

  predicate AllClean(s: string) {
    forall k :: 0 <= k < |s| ==> !Bad(s[k])
  }

  lemma {:induction false} CleanedIsClean(s: string, out: string, prevUnderscore: bool)
    requires AllClean(out)
    ensures AllClean(Cleaned(s, out, prevUnderscore))
    decreases |s|
  {
    if s != "" {
      if Bad(s[0]) {
        if !prevUnderscore && out != "" {
          CleanedIsClean(s[1..], out + "_", true);
        } else {
          CleanedIsClean(s[1..], out, prevUnderscore);
        }
      } else {
        CleanedIsClean(s[1..], out + [s[0]], false);
      }
    }
  }

  /** Clean text passes the loop unchanged. */
  lemma {:induction false} CleanStays(s: string, out: string, prevUnderscore: bool)
    requires AllClean(s)
    ensures Cleaned(s, out, prevUnderscore) == out + s
    decreases |s|
  {
    hide Bad;
    if s == "" {
      assert out + s == out;
    } else {
      CleanStays(s[1..], out + [s[0]], false);
      assert out + [s[0]] + s[1..] == out + s;
    }
  }

  predicate AllBad(s: string) {
    forall k :: 0 <= k < |s| ==> Bad(s[k])
  }

  /** Separators, NUL and control characters are bad; all else is kept. */
  lemma BadIs(c: char)
    ensures Bad(c) <==> c == '/' || c == '\\' || (c as int) < 0x20 || 0x7f <= (c as int) <= 0x9f
    ensures Edge(c) <==> c == '.' || c == ' ' || c == '\t'
    ensures Tail(c) <==> c == '.' || c == ' ' || c == '_'
  {}

  /** UTF-8 takes one byte for 7 bits, two for 11, three for 16, else four. */
  lemma Utf8Steps(c: char)
    ensures Utf8Len(c) == 1 <==> (c as int) < 128
    ensures Utf8Len(c) <= 2 <==> (c as int) < 2048
    ensures Utf8Len(c) <= 3 <==> (c as int) < 65536
  {}

  /** Bad characters at the front leave no trace. */
  lemma {:induction false} LeadingDropped(b: string, s: string)
    requires AllBad(b)
    ensures Cleaned(b + s, "", false) == Cleaned(s, "", false)
  {
    hide Bad;
    if b == "" {
      assert b + s == s;
    } else {
      assert (b + s)[1..] == b[1..] + s;
      LeadingDropped(b[1..], s);
    }
  }

  lemma {:induction false} SkipBad(b: string, s: string, out: string)
    requires AllBad(b)
    ensures Cleaned(b + s, out, true) == Cleaned(s, out, true)
  {
    hide Bad;
    if b == "" {
      assert b + s == s;
    } else {
      assert (b + s)[1..] == b[1..] + s;
      SkipBad(b[1..], s, out);
    }
  }

  lemma {:induction false} KeepsFront(s: string, front: string, out: string, prevUnderscore: bool)
    requires out != ""
    ensures Cleaned(s, front + out, prevUnderscore) == front + Cleaned(s, out, prevUnderscore)
    decreases |s|
  {
    hide Bad;
    if s != "" {
      assert front + out + "_" == front + (out + "_");
      assert front + out + [s[0]] == front + (out + [s[0]]);
      if Bad(s[0]) {
        if !prevUnderscore {
          KeepsFront(s[1..], front, out + "_", true);
        } else {
          KeepsFront(s[1..], front, out, prevUnderscore);
        }
      } else {
        KeepsFront(s[1..], front, out + [s[0]], false);
      }
    }
  }

  /** From a kept character on the loop starts over. */
  lemma StartsOver(s: string, out: string, prevUnderscore: bool)
    requires s == "" || !Bad(s[0])
    ensures Cleaned(s, out, prevUnderscore) == out + Cleaned(s, "", false)
  {
    hide Bad;
    if s == "" {
      assert out + "" == out;
    } else {
      assert "" + [s[0]] == [s[0]];
      KeepsFront(s[1..], out, [s[0]], false);
    }
  }

  /** Text up to a kept character is cleaned first. */
  lemma {:induction false} CleanedFirst(a: string, t: string, out: string, prevUnderscore: bool)
    requires a != "" && !Bad(a[|a| - 1])
    ensures Cleaned(a + t, out, prevUnderscore) == Cleaned(t, Cleaned(a, out, prevUnderscore), false)
    ensures Cleaned(a, out, prevUnderscore) != ""
    decreases |a|
  {
    hide Bad;
    assert (a + t)[1..] == a[1..] + t;
    if |a| == 1 {
      assert a[1..] == "" && "" + t == t;
    } else if Bad(a[0]) {
      if !prevUnderscore && out != "" {
        CleanedFirst(a[1..], t, out + "_", true);
      } else {
        CleanedFirst(a[1..], t, out, prevUnderscore);
      }
    } else {
      CleanedFirst(a[1..], t, out + [a[0]], false);
    }
  }

  /** A run of bad characters behind kept text becomes one underscore, however long, also at the
      end. */
  lemma RunIsOne(a: string, b: string, s: string)
    requires a != "" && !Bad(a[|a| - 1]) && b != "" && AllBad(b) && (s == "" || !Bad(s[0]))
    ensures Cleaned(a + b + s, "", false) == Cleaned(a, "", false) + "_" + Cleaned(s, "", false)
  {
    hide Bad;
    var kept := Cleaned(a, "", false);
    assert a + b + s == a + (b + s);
    CleanedFirst(a, b + s, "", false);
    assert (b + s)[1..] == b[1..] + s;
    SkipBad(b[1..], s, kept + "_");
    StartsOver(s, kept + "_", true);
  }

  lemma TrimmedShape(s: string)
    requires AllClean(s)
    ensures var t := Trimmed(s); AllClean(t) && (t != "" ==> !Edge(t[0]) && !Edge(t[|t| - 1]))
  {
    var f := TrimFront(s);
    assert forall k :: 0 <= k < |f| ==> f[k] == s[|s| - |f| + k];
  }

  lemma NoTrim(s: string)
    requires s != "" ==> !Edge(s[0]) && !Edge(s[|s| - 1])
    ensures Trimmed(s) == s
  {}

  /** A component that is accepted is short, has no separator, NUL or control character, and
      is never the current or the parent directory. */
  lemma ComponentIsSafe(s: string)
    requires Normalized(s).Ok?
    ensures var r := Normalized(s).value;
            && AllClean(r) && ByteLen(r) <= 255 && r != "." && r != ".."
            && (r != "" ==> !Edge(r[0]) && !Edge(r[|r| - 1]))
            && '/' !in r && '\\' !in r && '\0' !in r
  {
    hide Bad, Trimmed, TrimTail, CutTo, ByteLen, Cleaned, Edge;
    CleanedIsClean(s, "", false);
    TrimmedShape(Cleaned(s, "", false));
    var t := Trimmed(Cleaned(s, "", false));
    var r := Normalized(s).value;
    if ByteLen(t) > MAX_COMPONENT_BYTES {
      CutKeeps(t);
    }
    NoneIn(r);
  }

  lemma NoneIn(r: string)
    ensures AllClean(r) ==> '/' !in r && '\\' !in r && '\0' !in r
  {}

  lemma CutKeeps(t: string)
    requires AllClean(t) && (t != "" ==> !Edge(t[0]))
    ensures var r := TrimTail(CutTo(t, MAX_COMPONENT_BYTES));
            && AllClean(r) && ByteLen(r) <= MAX_COMPONENT_BYTES
            && (r != "" ==> !Edge(r[0]) && !Edge(r[|r| - 1]))
  {
    hide ByteLen, CutTo, TrimTail, HardBad;
    var c := CutTo(t, MAX_COMPONENT_BYTES);
    var r := TrimTail(c);
    PrefixShorter(r, c);
    if r != "" {
      assert r[0] == c[0] == t[0];
      assert r[|r| - 1] == t[|r| - 1];
      assert !Bad(t[|r| - 1]);
    }
  }

  lemma {:induction false} PrefixShorter(a: string, b: string)
    requires a <= b
    ensures ByteLen(a) <= ByteLen(b)
  {
    if a != "" {
      assert a[1..] <= b[1..];
      PrefixShorter(a[1..], b[1..]);
    }
  }

  /** Normalizing again changes nothing. */
  lemma NormalizedIsStable(s: string)
    requires Normalized(s).Ok? && Normalized(s).value != ""
    ensures Normalized(Normalized(s).value) == Normalized(s)
  {
    hide Bad, Trimmed, Cleaned, ByteLen, CutTo, TrimTail, AllClean, Edge;
    var r := Normalized(s).value;
    ComponentIsSafe(s);
    CleanStays(r, "", false);
    assert "" + r == r;
    NoTrim(r);
  }

  /** Trimming leaves neither directory name. */
  lemma TrimmedNoDots(s: string)
    ensures var t := Trimmed(Cleaned(s, "", false)); t != "." && t != ".."
  {
    CleanedIsClean(s, "", false);
    TrimmedShape(Cleaned(s, "", false));
    hide Bad, Trimmed, Cleaned;
  }

  /** A component is refused exactly when nothing is left after cleaning and trimming. */
  lemma RefusedExactly(s: string)
    ensures Normalized(s).Err? <==> Trimmed(Cleaned(s, "", false)) == ""
  {
    hide Trimmed, Cleaned, ByteLen;
    TrimmedNoDots(s);
  }

  /** An empty component is accepted after all exactly when the name is too long and its first
      255 bytes are underscores, dots and spaces only. */
  lemma AcceptedEmptyExactly(s: string)
    ensures var t := Trimmed(Cleaned(s, "", false));
            Normalized(s) == Ok("")
            <==> ByteLen(t) > MAX_COMPONENT_BYTES
                 && forall k :: 0 <= k < |CutTo(t, MAX_COMPONENT_BYTES)| ==> Tail(CutTo(t, MAX_COMPONENT_BYTES)[k])
  {
    hide Trimmed, Cleaned, CutTo, ByteLen, TrimTail, Tail;
    TrimmedNoDots(s);
    NoBytesInNothing();
  }

  lemma NoBytesInNothing()
    ensures ByteLen("") == 0
  {}

  /** It happens: 256 underscores. */
  lemma EmptyWitness()
    ensures Normalized(Underscores(256)) == Ok("")
  {
    hide Trimmed, Cleaned, CutTo, ByteLen;
    var s := Underscores(256);
    assert forall k :: 0 <= k < |s| ==> s[k] == '_' && !Bad(s[k]);
    CleanStays(s, "", false);
    assert "" + s == s;
    NoTrim(s);
    UnderscoreBytes(256);
    AcceptedEmptyExactly(s);
  }

  function Underscores(n: nat): (s: string)
    ensures |s| == n && forall k :: 0 <= k < n ==> s[k] == '_'
  {
    seq(n, _ => '_')
  }

  lemma {:induction false} UnderscoreBytes(n: nat)
    ensures ByteLen(Underscores(n)) == n
  {
    if n > 0 {
      UnderscoreBytes(n - 1);
      assert Underscores(n)[1..] == Underscores(n - 1);
    }
  }

  lemma {:induction false} FewBytes(s: string)
    ensures ByteLen(s) <= 4 * |s|
  {
    if s != "" {
      FewBytes(s[1..]);
    }
  }

  /** A short name of clean characters without dots or blanks at its ends is its own form. */
  lemma PlainName(s: string)
    requires AllClean(s) && 1 <= |s| <= 63 && !Edge(s[0]) && !Edge(s[|s| - 1])
    ensures Normalized(s) == Ok(s)
  {
    hide Bad, Trimmed, Cleaned, ByteLen;
    CleanStays(s, "", false);
    assert "" + s == s;
    NoTrim(s);
    FewBytes(s);
  }
}
