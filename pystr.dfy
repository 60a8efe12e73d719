/** Python 2 byte-string operations used on INI option values:
    `str.split(", ")` with an explicit separator and `str.strip()` with no argument. */
module PyStr {

  /** The separator every raw option value is split on. */
  const Sep: string := ", "

  /** Python 2 `str.isspace` for one character: space, tab, newline, carriage return,
      vertical tab and form feed. */
  predicate IsSpace(c: char) {
    c == ' ' || c == '\t' || c == '\n' || c == '\r' || c == '\U{0B}' || c == '\U{0C}'
  }

  /** Everything outside `s[i..j]` is whitespace. */
  predicate SpaceOutside(s: string, i: int, j: int)
    requires 0 <= i <= j <= |s|
  {
    && (forall k :: 0 <= k < i ==> IsSpace(s[k]))
    && (forall k :: j <= k < |s| ==> IsSpace(s[k]))
  }

  /** No whitespace at either end: the shape of every result of `strip()`. */
  predicate Stripped(s: string) {
    s == [] || (!IsSpace(s[0]) && !IsSpace(s[|s| - 1]))
  }

  /** The scan from the left: the index of the first non-whitespace character at or after
      `i`, or `|s|` when there is none. */
  function SpanStart(s: string, i: nat): (n: nat)
    requires i <= |s|
    ensures i <= n <= |s|
    ensures forall k :: i <= k < n ==> IsSpace(s[k])
    ensures n == |s| || !IsSpace(s[n])
    decreases |s| - i
  {
    if i < |s| && IsSpace(s[i]) then SpanStart(s, i + 1) else i
  }

  /** The scan from the right, which stops at `lo`: one past the last non-whitespace
      character before `j`, or `lo` when there is none. */
  function SpanEnd(s: string, lo: nat, j: nat): (e: nat)
    requires lo <= j <= |s|
    ensures lo <= e <= j
    ensures forall k :: e <= k < j ==> IsSpace(s[k])
    ensures e == lo || !IsSpace(s[e - 1])
    decreases j
  {
    if j > lo && IsSpace(s[j - 1]) then SpanEnd(s, lo, j - 1) else j
  }

  /** Python's `s.strip()`: the result is a slice of `s`, what was cut on either side is
      whitespace, and the result has no whitespace at either end. */
  function Strip(s: string): (r: string)
    ensures Stripped(r)
    ensures exists i, j :: 0 <= i <= j <= |s| && r == s[i..j] && SpaceOutside(s, i, j)
  {
    var i := SpanStart(s, 0);
    var j := SpanEnd(s, i, |s|);
    assert SpaceOutside(s, i, j);
    s[i..j]
  }

  /** The slice that `strip()` keeps is uniquely determined: whichever way `s` is cut into
      whitespace, a stripped middle and whitespace, the middle is `Strip(s)`. */
  lemma StripCharacterized(s: string, i: nat, j: nat)
    requires i <= j <= |s|
    requires SpaceOutside(s, i, j) && Stripped(s[i..j])
    ensures Strip(s) == s[i..j]
  {
    var m := SpanStart(s, 0);
    if i < j {
      assert s[i..j][0] == s[i] && s[i..j][j - 1 - i] == s[j - 1];
      assert m == i;
      assert SpanEnd(s, i, |s|) == j;
    } else {
      assert m == |s|;
      assert s[i..j] == [] == s[m..m];
    }
  }

  /** Stripping twice is stripping once. */
  lemma StripIdempotent(s: string)
    ensures Strip(Strip(s)) == Strip(s)
  {
    var r := Strip(s);
    assert r[0..|r|] == r;
    StripCharacterized(r, 0, |r|);
  }

  /** There is an occurrence of the separator at position `k` of `p`. */
  predicate SepAt(p: string, k: int) {
    0 <= k && k + 1 < |p| && p[k] == ',' && p[k + 1] == ' '
  }

  predicate NoSep(p: string) {
    forall k :: 0 <= k < |p| ==> !SepAt(p, k)
  }

  /** Python's `s.split(", ")`: scans left to right and cuts at every occurrence of the
      separator (occurrences of ", " can never overlap). The first piece is a prefix of `s`. */
  function Split(s: string): (r: seq<string>)
    ensures |r| >= 1
    ensures |r[0]| <= |s| && r[0] == s[..|r[0]|]
    decreases |s|
  {
    if |s| >= 2 && s[0] == ',' && s[1] == ' ' then [""] + Split(s[2..])
    else if |s| == 0 then [""]
    else
      var rest := Split(s[1..]);
      [[s[0]] + rest[0]] + rest[1..]
  }

  /** `p` is the first piece of `s`: a separator-free prefix that is all of `s` or is
      followed by the separator. */
  predicate FirstPiece(s: string, p: string) {
    && |p| <= |s| && p == s[..|p|] && NoSep(p)
    && (|p| == |s| || (|p| + 2 <= |s| && s[|p|..|p| + 2] == Sep))
  }

  /** The first piece `Split` yields is the value up to its first separator. */
  lemma {:induction false} SplitFirstPiece(s: string)
    ensures FirstPiece(s, Split(s)[0])
    decreases |s|
  {
    SplitPiecesNoSep(s);
    if |s| >= 2 && s[0] == ',' && s[1] == ' ' {
      assert Split(s)[0] == "";
      assert s[0..2] == Sep;
    } else if |s| > 0 {
      var rest := Split(s[1..]);
      SplitFirstPiece(s[1..]);
      var r0 := [s[0]] + rest[0];
      assert Split(s)[0] == r0;
      if |rest[0]| == |s[1..]| {
        assert rest[0] == s[1..];
        assert r0 == s;
      } else {
        assert s[1..][|rest[0]|..|rest[0]| + 2] == s[|r0|..|r0| + 2];
      }
    }
  }

  /** Python's `", ".join(ps)`. */
  function Join(ps: seq<string>): string
  {
    if |ps| == 0 then ""
    else if |ps| == 1 then ps[0]
    else ps[0] + Sep + Join(ps[1..])
  }

  lemma {:induction false} JoinConsHead(c: char, ps: seq<string>)
    requires |ps| >= 1
    ensures Join([[c] + ps[0]] + ps[1..]) == [c] + Join(ps)
  {
    var qs := [[c] + ps[0]] + ps[1..];
    assert qs[1..] == ps[1..];
  }

  /** Joining the pieces with the separator gives back the original value. */
  lemma {:induction false} SplitJoin(s: string)
    ensures Join(Split(s)) == s
    decreases |s|
  {
    if |s| >= 2 && s[0] == ',' && s[1] == ' ' {
      SplitJoin(s[2..]);
      var r := [""] + Split(s[2..]);
      assert r[1..] == Split(s[2..]);
      assert s == Sep + s[2..];
    } else if |s| == 0 {
    } else {
      var rest := Split(s[1..]);
      SplitJoin(s[1..]);
      JoinConsHead(s[0], rest);
      assert s == [s[0]] + s[1..];
    }
  }

  /** Putting a character in front of a separator-free string keeps it separator-free,
      unless the two make a separator. */
  lemma NoSepCons(c: char, p: string)
    requires NoSep(p) && !(c == ',' && |p| > 0 && p[0] == ' ')
    ensures NoSep([c] + p)
  {
    var q := [c] + p;
    forall k | 0 <= k < |q| ensures !SepAt(q, k) {
      if k > 0 { assert !SepAt(p, k - 1); }
    }
  }

  lemma NoSepTail(p: string)
    requires NoSep(p) && |p| > 0
    ensures NoSep(p[1..])
  {
    forall k | 0 <= k < |p[1..]| ensures !SepAt(p[1..], k) { assert !SepAt(p, k + 1); }
  }

  /** No piece contains the separator. */
  lemma {:induction false} SplitPiecesNoSep(s: string)
    ensures forall k :: 0 <= k < |Split(s)| ==> NoSep(Split(s)[k])
    decreases |s|
  {
    if |s| >= 2 && s[0] == ',' && s[1] == ' ' {
      var tail := Split(s[2..]);
      SplitPiecesNoSep(s[2..]);
      assert Split(s) == [""] + tail;
      forall k | 0 <= k < |Split(s)| ensures NoSep(Split(s)[k]) {
        if k > 0 { assert Split(s)[k] == tail[k - 1]; }
      }
    } else if |s| > 0 {
      var rest := Split(s[1..]);
      SplitPiecesNoSep(s[1..]);
      assert |rest[0]| > 0 ==> rest[0][0] == s[1];
      NoSepCons(s[0], rest[0]);
      assert Split(s) == [[s[0]] + rest[0]] + rest[1..];
      forall k | 0 <= k < |Split(s)| ensures NoSep(Split(s)[k]) {
        if k > 0 { assert Split(s)[k] == rest[k]; }
      }
    }
  }

  /** A value with no separator in it is one piece. */
  lemma {:induction false} SplitSinglePiece(p: string)
    requires NoSep(p)
    ensures Split(p) == [p]
    decreases |p|
  {
    if |p| > 0 {
      assert !SepAt(p, 0);
      NoSepTail(p);
      SplitSinglePiece(p[1..]);
      assert p == [p[0]] + p[1..];
    }
  }

  /** The first occurrence of the separator after a separator-free prefix ends the first piece. */
  lemma {:induction false} SplitAfterPiece(p: string, t: string)
    requires NoSep(p)
    ensures Split(p + Sep + t) == [p] + Split(t)
    decreases |p|
  {
    var s := p + Sep + t;
    if |p| == 0 {
      assert s == Sep + t && s[2..] == t;
    } else {
      assert s[0] == p[0];
      assert !(s[0] == ',' && s[1] == ' ') by {
        if |p| >= 2 { assert s[1] == p[1]; assert !SepAt(p, 0); } else { assert s[1] == ','; }
      }
      NoSepTail(p);
      SplitAfterPiece(p[1..], t);
      assert s[1..] == p[1..] + Sep + t;
      assert p == [p[0]] + p[1..];
    }
  }

  /** Splitting undoes joining, for at least one piece and pieces free of the separator:
      together with SplitJoin and SplitPiecesNoSep, `Split` is the unique decomposition
      of a value into separator-free pieces. */
  lemma {:induction false} JoinSplit(ps: seq<string>)
    requires |ps| >= 1
    requires forall k :: 0 <= k < |ps| ==> NoSep(ps[k])
    ensures Split(Join(ps)) == ps
    decreases |ps|
  {
    if |ps| == 1 {
      SplitSinglePiece(ps[0]);
    } else {
      JoinSplit(ps[1..]);
      SplitAfterPiece(ps[0], Join(ps[1..]));
      assert ps == [ps[0]] + ps[1..];
    }
  }
}
