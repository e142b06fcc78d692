/**
 Bounded printing into a character buffer, as the kernel's scnprintf does it:
 the longest prefix that leaves room for the terminator, whose length is
 returned.  A buffer printed to piece by piece holds a prefix of the whole.
 */
module Buffer {

  const NUL: char := '\0'

  /** What a buffer of `size` characters holds of a text, terminator apart. */
  function Shown(text: string, size: nat): (shown: string)
    ensures shown <= text
    ensures size > 0 ==> |shown| <= size - 1
  {
    if size == 0 then "" else if |text| < size then text else text[..size - 1]
  }

  /** scnprintf(buf + off, size - off, ...) for a text already converted. */
  method Scnprintf(buf: array<char>, off: nat, size: nat, text: string) returns (n: nat)
    requires off <= size <= buf.Length
    modifies buf
    ensures n == |Shown(text, size - off)|
    ensures size > off ==> off + n < size
    ensures buf[..off] == old(buf[..off])
    ensures buf[off..off + n] == Shown(text, size - off)
    ensures size > off ==> buf[off + n] == NUL
    ensures size == off ==> buf[..] == old(buf[..])
    ensures forall i: nat | off + n < i < buf.Length :: buf[i] == old(buf[i])
  {
    if size == off {
      return 0;
    }
    n := if |text| < size - off then |text| else size - off - 1;
    for i := 0 to n
      invariant buf[..off] == old(buf[..off])
      invariant forall k: nat | k < i :: buf[off + k] == text[k]
      invariant forall k: nat | off + n <= k < buf.Length :: buf[k] == old(buf[k])
    {
      buf[off + i] := text[i];
    }
    buf[off + n] := NUL;
  }

  /** Printing a second piece after a first is printing both together. */
  lemma ShownAppend(a: string, b: string, size: nat)
    ensures |Shown(a, size)| <= size
    ensures Shown(a, size) + Shown(b, size - |Shown(a, size)|) == Shown(a + b, size)
  {
  }

  /** Once nothing more fits, nothing more is shown. */
  lemma ShownFull(a: string, b: string, size: nat)
    requires |Shown(a, size)| == size - 1
    ensures Shown(a + b, size) == Shown(a, size)
  {
  }

  /** The first `pos` characters show what has been printed so far. */
  predicate Showing(buf: array<char>, pos: nat, size: nat, printed: string)
    reads buf
  {
    && pos <= size <= buf.Length && (size > 0 ==> pos < size)
    && buf[..pos] == Shown(printed, size)
  }

  /** One step of a printing sequence: the next piece behind the earlier ones. */
  method Append(buf: array<char>, pos: nat, size: nat, text: string, ghost printed: string) returns (n: nat)
    requires Showing(buf, pos, size, printed)
    modifies buf
    ensures Showing(buf, pos + n, size, printed + text)
    ensures size > 0 ==> buf[pos + n] == NUL
    ensures n == 0 ==> text == "" || pos + 1 >= size
    ensures forall i: nat | size <= i < buf.Length :: buf[i] == old(buf[i])
  {
    n := Scnprintf(buf, pos, size, text);
    ShownAppend(printed, text, size);
    assert buf[..pos + n] == buf[..pos] + buf[pos..pos + n];
  }

  /** A buffer that is full shows whatever else is printed. */
  lemma ShowingFull(buf: array<char>, size: nat, a: string, b: string)
    requires size > 0 && Showing(buf, size - 1, size, a)
    ensures Showing(buf, size - 1, size, a + b)
  {
    ShownFull(a, b, size);
  }

  /** Pieces of text, and what has been printed before each of them and in the end. */
  ghost predicate Growing(pieces: seq<string>, printed: seq<string>) {
    && |printed| == |pieces| + 1
    && forall i: nat | i < |pieces| :: printed[i + 1] == printed[i] + pieces[i]
  }

  /** A full buffer shows the rest of the pieces as well. */
  lemma {:induction false} NothingMore(pieces: seq<string>, printed: seq<string>, i: nat, k: nat,
                                       buf: array<char>, size: nat)
    requires Growing(pieces, printed) && i <= k <= |pieces|
    requires size > 0 && Showing(buf, size - 1, size, printed[i])
    ensures Showing(buf, size - 1, size, printed[k])
    decreases k - i
  {
    if i < k {
      ShowingFull(buf, size, printed[i], pieces[i]);
      NothingMore(pieces, printed, i + 1, k, buf, size);
    }
  }

  lemma NothingPrinted(buf: array<char>, size: nat)
    requires size <= buf.Length
    ensures Showing(buf, 0, size, "")
  {
    assert buf[..0] == "";
  }

  /** A buffer holds a text, ended by the terminator. */
  predicate Holds(buf: array<char>, text: string)
    reads buf
  {
    |text| < buf.Length && buf[..|text|] == text && buf[|text|] == NUL
  }

  method Strlen(buf: array<char>, ghost text: string) returns (n: nat)
    requires Holds(buf, text) && NUL !in text
    ensures n == |text|
  {
    n := 0;
    while buf[n] != NUL
      invariant n <= |text|
      decreases |text| - n
    {
      n := n + 1;
    }
    assert forall i: nat | i < |text| :: buf[i] == text[i];
  }
}
