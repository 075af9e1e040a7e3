/** The string trimming the renderer applies to every text it stores:
    ECMAScript's String.prototype.trim, which strips WhiteSpace and
    LineTerminator code points from both ends of a string. */
module JsText {

  /** WhiteSpace (section 12.2 of ECMA-262) or LineTerminator (section 12.3):
      TAB, VT, FF, SP, NBSP, ZWNBSP, the other Zs code points, LF, CR, LS, PS. */
  predicate IsTrimmable(c: char) {
    var n := c as int;
    n == 0x09 || n == 0x0A || n == 0x0B || n == 0x0C || n == 0x0D || n == 0x20 ||
    n == 0xA0 || n == 0x1680 || (0x2000 <= n <= 0x200A) || n == 0x2028 ||
    n == 0x2029 || n == 0x202F || n == 0x205F || n == 0x3000 || n == 0xFEFF
  }

  /** Every code point of `s[lo..hi]` is trimmable. */
  predicate TrimmableBetween(s: string, lo: nat, hi: nat)
    requires hi <= |s|
  {
    forall m :: lo <= m < hi ==> IsTrimmable(s[m])
  }

  predicate AllTrimmable(s: string) {
    TrimmableBetween(s, 0, |s|)
  }

  /** Neither end of `s` is a trimmable code point. */
  predicate IsTrimmed(s: string) {
    s == [] || (!IsTrimmable(s[0]) && !IsTrimmable(s[|s| - 1]))
  }

  /** Where the run of trimmable code points starting at `i` ends. */
  function LeadingEnd(s: string, i: nat): (j: nat)
    requires i <= |s|
    ensures i <= j <= |s| && TrimmableBetween(s, i, j)
    ensures j < |s| ==> !IsTrimmable(s[j])
    decreases |s| - i
  {
    if i == |s| || !IsTrimmable(s[i]) then i else LeadingEnd(s, i + 1)
  }

  /** Where the run of trimmable code points ending at `n` starts, going
      back no further than `lo`. */
  function TrailingStart(s: string, lo: nat, n: nat): (j: nat)
    requires lo <= n <= |s|
    ensures lo <= j <= n && TrimmableBetween(s, j, n)
    ensures lo < j ==> !IsTrimmable(s[j - 1])
    decreases n
  {
    if n == lo || !IsTrimmable(s[n - 1]) then n else TrailingStart(s, lo, n - 1)
  }

  /** `s.trim()`: `s` with a trimmable prefix and a trimmable suffix cut off,
      both as long as possible (the result starts and ends with a code point
      that is not trimmable). */
  function Trim(s: string): (r: string)
    ensures |r| <= |s|
    ensures exists i :: 0 <= i && i + |r| <= |s| && r == s[i..i + |r|] &&
                        TrimmableBetween(s, 0, i) && TrimmableBetween(s, i + |r|, |s|)
    ensures IsTrimmed(r)
  {
    var i := LeadingEnd(s, 0);
    var j := TrailingStart(s, i, |s|);
    TrimWitness(s, i, j);
    s[i..j]
  }

  /** The two cut points of Trim delimit a trimmed middle with trimmable
      code points on both sides. */
  lemma TrimWitness(s: string, i: nat, j: nat)
    requires i == LeadingEnd(s, 0) && j == TrailingStart(s, i, |s|)
    ensures var r := s[i..j];
      i + |r| <= |s| && r == s[i..i + |r|] &&
      TrimmableBetween(s, 0, i) && TrimmableBetween(s, i + |r|, |s|) && IsTrimmed(r)
  {
  }

  /** A text is blank after trimming exactly when every code point of it is
      trimmable; this is the `if (!text)` test of addTodo and saveEdit. */
  lemma TrimEmptyIff(s: string)
    ensures Trim(s) == [] <==> AllTrimmable(s)
  {
    var i := LeadingEnd(s, 0);
    var j := TrailingStart(s, i, |s|);
    TrimWitness(s, i, j);
    if AllTrimmable(s) {
      assert i == |s|;
    }
  }

  /** Trimming leaves an already trimmed text as it is. */
  lemma TrimmedFixed(t: string)
    requires IsTrimmed(t)
    ensures Trim(t) == t
  {
    if t != [] {
      assert LeadingEnd(t, 0) == 0;
      assert TrailingStart(t, 0, |t|) == |t|;
      assert t[0..|t|] == t;
    }
  }

  /** Trimming is idempotent. */
  lemma TrimIdempotent(s: string)
    ensures Trim(Trim(s)) == Trim(s)
  {
    TrimmedFixed(Trim(s));
  }
}
