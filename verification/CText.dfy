/** NUL-terminated text in character arrays, and the library calls that read and write it. */
module CText {
  import opened CArith

  const NUL: char := '\0'

  predicate NoNul(s: string) {
    forall i :: 0 <= i < |s| ==> s[i] != NUL
  }

  /** The text a C reader sees: everything before the first NUL. */
  function UpToNul(s: string): string {
    if |s| == 0 || s[0] == NUL then [] else [s[0]] + UpToNul(s[1..])
  }

  lemma {:induction false} UpToNulIs(s: string, n: nat)
    requires n < |s| && s[n] == NUL && NoNul(s[..n])
    ensures UpToNul(s) == s[..n]
  {
    if n > 0 {
      assert s[0] == s[..n][0];
      assert s[1..][..n - 1] == s[..n][1..];
      UpToNulIs(s[1..], n - 1);
      assert s[..n] == [s[0]] + s[1..][..n - 1];
    }
  }

  /** A terminator cuts the text off, and changes nothing before it. */
  lemma {:induction false} UpToNulStops(s: string, n: nat)
    requires n < |s| && s[n] == NUL
    ensures UpToNul(s) == UpToNul(s[..n])
    decreases n
  {
    if n > 0 && s[0] != NUL {
      UpToNulStops(s[1..], n - 1);
      assert s[1..][..n - 1] == s[..n][1..];
    }
  }

  /** What is written at an offset: as much of the text as fits before the terminator. */
  predicate HoldsAt(s: string, off: nat, text: string) {
    off + |text| < |s| && s[off..off + |text|] == text && s[off + |text|] == NUL
  }

  lemma HeldText(s: string, text: string)
    requires HoldsAt(s, 0, text) && NoNul(text)
    ensures UpToNul(s) == text
  {
    assert s[..|text|] == text;
    UpToNulIs(s, |text|);
  }

  lemma FirstNulUnique(s: string, m: nat, n: nat)
    requires m < |s| && s[m] == NUL && NoNul(s[..m])
    requires n < |s| && s[n] == NUL && NoNul(s[..n])
    ensures m == n
  {
    assert forall k :: 0 <= k < m ==> s[k] == s[..m][k];
    assert forall k :: 0 <= k < n ==> s[k] == s[..n][k];
  }

  method StrLen(str: array<char>) returns (n: nat)
    requires NUL in str[..]
    ensures n < str.Length && str[n] == NUL && NoNul(str[..n])
  {
    n := 0;
    while str[n] != NUL
      invariant n < str.Length && NoNul(str[..n])
      invariant NUL in str[n..]
      decreases str.Length - n
    {
      assert str[n..] == [str[n]] + str[n + 1..];
      n := n + 1;
    }
  }

  /** `snprintf` of a finished text into `size` characters at `off`: cuts the text to fit,
      terminates it, and returns the length the whole text would have needed. */
  method Snprintf(buf: array<char>, off: nat, size: nat, text: string) returns (written: nat)
    requires off + size <= buf.Length
    modifies buf
    ensures written == |text|
    ensures buf[..off] == old(buf[..off])
    ensures size == 0 ==> buf[..] == old(buf[..])
    ensures size > 0 ==> HoldsAt(buf[..], off, text[..Min(|text|, size - 1)])
    ensures forall k :: off + Min(|text|, size - 1) < k < buf.Length ==> buf[k] == old(buf[k])
  {
    written := |text|;
    if size > 0 {
      var n := Min(|text|, size - 1);
      var i := 0;
      while i < n
        invariant 0 <= i <= n
        invariant buf[..off] == old(buf[..off])
        invariant buf[off..off + i] == text[..i]
        invariant forall k :: off + i <= k < buf.Length ==> buf[k] == old(buf[k])
      {
        buf[off + i] := text[i];
        i := i + 1;
      }
      buf[off + n] := NUL;
    }
  }

  /** A piece written after a held prefix extends the prefix. */
  lemma HeldPrefix(before: string, s: string, full: string, pos: nat, text: string, rest: string, n: nat)
    requires pos <= |full| && full[pos..] == text + rest
    requires HoldsAt(before, 0, full[..pos])
    requires |s| == |before| && s[..pos] == before[..pos]
    requires n <= |text| && HoldsAt(s, pos, text[..n])
    ensures pos + n <= |full| && HoldsAt(s, 0, full[..pos + n])
    ensures n == |text| ==> full[pos + n..] == rest
  {
    assert full == full[..pos] + (text + rest);
    assert full[..pos + n] == full[..pos] + text[..n];
    assert before[0..pos] == before[..pos];
    assert s[..pos + n] == s[..pos] + s[pos..pos + n];
    assert s[0..pos + n] == s[..pos + n];
  }

  /** A text under construction in the first `size` characters of a buffer: the part before
      the offset is there, the rest is still to come. */
  ghost predicate Progress(s: string, size: nat, full: string, offset: nat, rest: string) {
    offset < size && offset <= |full| && HoldsAt(s, 0, full[..offset]) && full[offset..] == rest
  }

  /** Prints the next piece behind the last, or as much of it as there is room for; a piece
      that is cut fills the room to its last character. */
  method AppendPiece(buf: array<char>, size: nat, offset: nat, text: string, ghost full: string, ghost rest: string)
    returns (fits: bool, next: nat)
    requires size <= buf.Length && Progress(buf[..], size, full, offset, text + rest)
    modifies buf
    ensures fits <==> offset + |text| < size
    ensures if fits then next == offset + |text| && Progress(buf[..], size, full, next, rest)
            else next == size - 1 && next <= |full| && HoldsAt(buf[..], 0, full[..next])
    ensures forall k :: size <= k < buf.Length ==> buf[k] == old(buf[k])
  {
    ghost var before := buf[..];
    var written := Snprintf(buf, offset, size - offset, text);
    HeldPrefix(before, buf[..], full, offset, text, rest, Min(|text|, size - offset - 1));
    fits := written < size - offset;
    next := if fits then offset + written else size - 1;
  }
}
