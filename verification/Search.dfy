/** Boyer-Moore-Horspool search (`memsearch`). */
module Search {
  import opened Bytes

  /** The pattern occurs in the text at `j`. */
  predicate OccursAt(text: seq<byte>, pattern: seq<byte>, j: nat) {
    j + |pattern| <= |text| && text[j..j + |pattern|] == pattern
  }

  /** The distance to jump when the text shows `c` under the last position of the pattern: from the last
      earlier place of `c` in the pattern to its end, or the whole length. */
  function Skip(pattern: seq<byte>, n: nat, c: byte): (d: nat)
    requires n < |pattern|
    ensures 1 <= d <= |pattern|
  {
    if n == 0 then |pattern|
    else if pattern[n - 1] == c then |pattern| - n
    else Skip(pattern, n - 1, c)
  }

  /** No earlier place of `c` is nearer to the end than the distance says, and one is exactly there
      unless the distance is the whole length. */
  lemma {:induction false} SkipIsNearest(pattern: seq<byte>, n: nat, c: byte)
    requires n < |pattern|
    ensures forall k :: 0 <= k < n && pattern[k] == c ==> Skip(pattern, n, c) <= |pattern| - 1 - k
    ensures var k := |pattern| - 1 - Skip(pattern, n, c); k >= 0 ==> k < n && pattern[k] == c
  {
    if n > 0 { SkipIsNearest(pattern, n - 1, c); }
  }

  /** A jump passes over no occurrence. */
  lemma JumpIsSafe(text: seq<byte>, pattern: seq<byte>, j: nat, i: nat)
    requires |pattern| > 0 && j + |pattern| <= |text|
    requires j < i < j + Skip(pattern, |pattern| - 1, text[j + |pattern| - 1])
    ensures !OccursAt(text, pattern, i)
  {
    var c := text[j + |pattern| - 1];
    SkipIsNearest(pattern, |pattern| - 1, c);
    var k := |pattern| - 1 - (i - j);
    assert 0 <= k < |pattern| - 1 && pattern[k] != c;
    if i + |pattern| <= |text| {
      assert text[i..i + |pattern|][k] == text[i + k] == c;
    }
  }

  /** Fills the table of distances. */
  method SkipTable(pattern: seq<byte>) returns (table: array<nat>)
    requires |pattern| > 0
    ensures fresh(table) && table.Length == 256
    ensures forall c: byte :: table[c] == Skip(pattern, |pattern| - 1, c)
  {
    table := new nat[256](_ => 0);
    var i := 0;
    while i < 256
      invariant 0 <= i <= 256
      invariant forall c :: 0 <= c < i ==> table[c] == |pattern|
    {
      table[i] := |pattern|;
      i := i + 1;
    }
    i := 0;
    while i < |pattern| - 1
      invariant 0 <= i <= |pattern| - 1
      invariant forall c: byte :: table[c] == Skip(pattern, i, c)
    {
      table[pattern[i]] := |pattern| - i - 1;
      i := i + 1;
    }
  }

  /** `memcmp` of a prefix. */
  method SameBytes(text: seq<byte>, pattern: seq<byte>, j: nat, n: nat) returns (same: bool)
    requires j + n <= |text| && n <= |pattern|
    ensures same <==> text[j..j + n] == pattern[..n]
  {
    var i := 0;
    while i < n
      invariant 0 <= i <= n
      invariant text[j..j + i] == pattern[..i]
    {
      if text[j + i] != pattern[i] {
        assert text[j..j + n][i] != pattern[..n][i];
        return false;
      }
      assert text[j..j + i + 1] == text[j..j + i] + [text[j + i]];
      assert pattern[..i + 1] == pattern[..i] + [pattern[i]];
      i := i + 1;
    }
    return true;
  }

  /** `memsearch`: the leftmost occurrence, or -1 when there is none. */
  method Find(text: seq<byte>, pattern: seq<byte>) returns (r: int)
    requires 1 <= |pattern| <= |text|
    ensures r >= 0 ==> OccursAt(text, pattern, r) && forall i :: 0 <= i < r ==> !OccursAt(text, pattern, i)
    ensures r < 0 ==> forall i :: 0 <= i ==> !OccursAt(text, pattern, i)
  {
    var table := SkipTable(pattern);
    var last := |pattern| - 1;
    var j := 0;
    while j <= |text| - |pattern|
      invariant 0 <= j
      invariant forall i :: 0 <= i < j ==> !OccursAt(text, pattern, i)
      invariant forall c: byte :: table[c] == Skip(pattern, last, c)
      decreases |text| - j
    {
      var c: byte := text[j + last];
      LastByte(text, pattern, j);
      if pattern[last] == c {
        var same := SameBytes(text, pattern, j, last);
        if same { return j; }
      }
      forall i | j < i < j + table[c]
        ensures !OccursAt(text, pattern, i)
      {
        JumpIsSafe(text, pattern, j, i);
      }
      j := j + table[c];
    }
    return -1;
  }

  /** An occurrence is its last byte and the rest. */
  lemma LastByte(text: seq<byte>, pattern: seq<byte>, j: nat)
    requires |pattern| > 0 && j + |pattern| <= |text|
    ensures var n := |pattern| - 1;
      OccursAt(text, pattern, j) <==> text[j + n] == pattern[n] && text[j..j + n] == pattern[..n]
  {
    var n := |pattern| - 1;
    assert text[j..j + |pattern|] == text[j..j + n] + [text[j + n]];
    assert pattern == pattern[..n] + [pattern[n]];
    if OccursAt(text, pattern, j) {
      assert text[j..j + |pattern|][n] == pattern[n];
      assert text[j..j + |pattern|][..n] == text[j..j + n];
    }
  }
}
