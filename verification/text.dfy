/** The few Python string operations the modelled code relies on:
    `str.isspace`, `strip`, `split`, `upper`, `lower` and the `in` test. */
module Text {

  /** Python's `str.isspace`: the Unicode whitespace characters. */
  predicate IsSpace(c: char) {
    var n := c as int;
    || (0x09 <= n <= 0x0D) || (0x1C <= n <= 0x20)
    || n == 0x85 || n == 0xA0 || n == 0x1680
    || (0x2000 <= n <= 0x200A)
    || n == 0x2028 || n == 0x2029 || n == 0x202F || n == 0x205F || n == 0x3000
  }

  /** Number of leading whitespace characters. */
  function LeadingSpace(s: string): (i: nat)
    ensures i <= |s|
    ensures forall k :: 0 <= k < i ==> IsSpace(s[k])
    ensures i < |s| ==> !IsSpace(s[i])
  {
    if |s| == 0 || !IsSpace(s[0]) then 0 else 1 + LeadingSpace(s[1..])
  }

  /** Length of `s` without its trailing whitespace. */
  function TrimmedLength(s: string): (j: nat)
    ensures j <= |s|
    ensures forall k :: j <= k < |s| ==> IsSpace(s[k])
    ensures j > 0 ==> !IsSpace(s[j - 1])
  {
    if |s| == 0 || !IsSpace(s[|s| - 1]) then |s| else TrimmedLength(s[..|s| - 1])
  }

  /** `s.strip()`: `s` without leading and trailing whitespace. */
  function Strip(s: string): (r: string)
    ensures |r| > 0 ==> !IsSpace(r[0]) && !IsSpace(r[|r| - 1])
    ensures exists i, j :: 0 <= i <= j <= |s| && r == s[i..j]
                           && (forall k :: 0 <= k < i ==> IsSpace(s[k]))
                           && (forall k :: j <= k < |s| ==> IsSpace(s[k]))
  {
    var i := LeadingSpace(s);
    var j := i + TrimmedLength(s[i..]);
    TrailingSpaceFrom(s, i);
    s[i..j]
  }

  /** The whitespace `TrimmedLength` cuts from a suffix of `s`, in `s`'s own
      positions. */
  lemma TrailingSpaceFrom(s: string, i: nat)
    requires i <= |s|
    ensures var j := i + TrimmedLength(s[i..]);
            && j <= |s|
            && (forall k :: j <= k < |s| ==> IsSpace(s[k]))
            && (j > i ==> !IsSpace(s[j - 1]))
  {
    var t := s[i..];
    var j := i + TrimmedLength(t);
    forall k | j <= k < |s| ensures IsSpace(s[k]) {
      assert s[k] == t[k - i];
    }
    if j > i {
      assert s[j - 1] == t[j - 1 - i];
    }
  }

  /** A string with no whitespace at either end is its own strip. */
  lemma {:induction false} StripOfStripped(s: string)
    requires |s| > 0 ==> !IsSpace(s[0]) && !IsSpace(s[|s| - 1])
    ensures Strip(s) == s
  {
    assert LeadingSpace(s) == 0;
    assert s[0..] == s;
    assert TrimmedLength(s) == |s|;
  }

  /** Stripping twice is stripping once. */
  lemma StripIdempotent(s: string)
    ensures Strip(Strip(s)) == Strip(s)
  {
    StripOfStripped(Strip(s));
  }

  /** The length of the leading run of non-whitespace characters. */
  function WordLength(s: string): (n: nat)
    ensures n <= |s|
    ensures forall k :: 0 <= k < n ==> !IsSpace(s[k])
    ensures n < |s| ==> IsSpace(s[n])
  {
    if |s| == 0 || IsSpace(s[0]) then 0 else 1 + WordLength(s[1..])
  }

  predicate AllSpace(s: string) {
    forall k :: 0 <= k < |s| ==> IsSpace(s[k])
  }

  predicate NoSpace(w: string) {
    forall k :: 0 <= k < |w| ==> !IsSpace(w[k])
  }

  /** `w` is the first word of `s` and occupies `s[i..j]`: a non-empty run
      of non-whitespace with only whitespace before it and whitespace or
      the end of `s` after it. */
  predicate WordAt(s: string, w: string, i: nat, j: nat) {
    && i <= j <= |s| && AllSpace(s[..i]) && s[i..j] == w
    && |w| > 0 && NoSpace(w) && (j == |s| || IsSpace(s[j]))
  }

  /** `s` reads as the words `ws`, in order, separated and surrounded by
      whitespace and covering every other character of `s`. */
  ghost predicate SplitsInto(s: string, ws: seq<string>)
    decreases |ws|
  {
    if |ws| == 0 then AllSpace(s)
    else exists i: nat, j: nat :: WordAt(s, ws[0], i, j) && SplitsInto(s[j..], ws[1..])
  }

  /** `s.split()`: the maximal runs of non-whitespace characters, in order. */
  function Words(s: string): (ws: seq<string>)
    ensures forall w :: w in ws ==> |w| > 0 && NoSpace(w)
    decreases |s|
  {
    var i := LeadingSpace(s);
    if i == |s| then []
    else
      var rest := s[i..];
      var n := WordLength(rest);
      [rest[..n]] + Words(rest[n..])
  }

  /** `s.split()` reads `s` as its words: nothing but whitespace around and
      between them. */
  lemma {:induction false} WordsSplit(s: string)
    ensures SplitsInto(s, Words(s))
    decreases |s|
  {
    var i := LeadingSpace(s);
    if i == |s| {
      assert forall k :: 0 <= k < |s| ==> IsSpace(s[k]);
    } else {
      var rest := s[i..];
      var n := WordLength(rest);
      assert n > 0 by {
        assert rest[0] == s[i];
      }
      forall k | i <= k < i + n
        ensures !IsSpace(s[k])
      {
        assert s[k] == rest[k - i];
      }
      if i + n < |s| {
        assert s[i + n] == rest[n];
      }
      WordAtFrom(s, i, n);
      assert rest[..n] == s[i..i + n] && rest[n..] == s[i + n..];
      WordsSplit(rest[n..]);
      SplitsAfterWord(s, rest[..n], i, i + n, Words(rest[n..]));
    }
  }

  /** A non-empty whitespace-free run at `i`, with only whitespace before it
      and whitespace or the end after it, is the first word. */
  lemma WordAtFrom(s: string, i: nat, n: nat)
    requires i + n <= |s| && n > 0
    requires forall k :: 0 <= k < i ==> IsSpace(s[k])
    requires forall k :: i <= k < i + n ==> !IsSpace(s[k])
    requires i + n == |s| || IsSpace(s[i + n])
    ensures WordAt(s, s[i..i + n], i, i + n)
  {
    assert forall k :: 0 <= k < i ==> s[..i][k] == s[k];
    var w := s[i..i + n];
    forall k | 0 <= k < n
      ensures !IsSpace(w[k])
    {
      assert w[k] == s[i + k];
    }
  }

  /** One word in front of a split is a split. */
  lemma SplitsAfterWord(s: string, w: string, i: nat, j: nat, tail: seq<string>)
    requires WordAt(s, w, i, j) && SplitsInto(s[j..], tail)
    ensures SplitsInto(s, [w] + tail)
  {
    var ws := [w] + tail;
    assert ws[0] == w && ws[1..] == tail;
  }

  /** Whitespace up to `i` and none at `i` fixes the leading run. */
  lemma LeadingSpaceIs(s: string, i: nat)
    requires i <= |s| && AllSpace(s[..i]) && (i < |s| ==> !IsSpace(s[i]))
    ensures LeadingSpace(s) == i
  {
    forall k | 0 <= k < i
      ensures IsSpace(s[k])
    {
      assert s[..i][k] == s[k];
    }
  }

  /** No whitespace before `n` and whitespace (or the end) at `n` fixes the
      first word's length. */
  lemma WordLengthIs(t: string, n: nat)
    requires n <= |t| && NoSpace(t[..n]) && (n < |t| ==> IsSpace(t[n]))
    ensures WordLength(t) == n
  {
    forall k | 0 <= k < n
      ensures !IsSpace(t[k])
    {
      assert t[..n][k] == t[k];
    }
  }

  /** A string has a first word exactly when it is not all whitespace. */
  lemma SplitsEmpty(s: string, ws: seq<string>)
    requires SplitsInto(s, ws)
    ensures |ws| == 0 <==> LeadingSpace(s) == |s|
  {
    if |ws| == 0 {
      assert s[..|s|] == s;
      LeadingSpaceIs(s, |s|);
    } else {
      var i: nat, j: nat :| WordAt(s, ws[0], i, j) && SplitsInto(s[j..], ws[1..]);
      assert s[i] == ws[0][0];
      LeadingSpaceIs(s, i);
    }
  }

  /** The first word of a string is determined by the string. */
  lemma WordAtUnique(s: string, w: string, i: nat, j: nat, v: string, i': nat, j': nat)
    requires WordAt(s, w, i, j) && WordAt(s, v, i', j')
    ensures i == i' && j == j' && w == v
  {
    assert s[i] == w[0] && s[i'] == v[0];
    LeadingSpaceIs(s, i);
    LeadingSpaceIs(s, i');
    var rest := s[i..];
    assert rest[..j - i] == w && rest[..j' - i] == v;
    assert j - i < |rest| ==> rest[j - i] == s[j];
    assert j' - i < |rest| ==> rest[j' - i] == s[j'];
    WordLengthIs(rest, j - i);
    WordLengthIs(rest, j' - i);
  }

  /** A string splits into whitespace-separated words in one way only. */
  lemma {:induction false} SplitUnique(s: string, ws: seq<string>, vs: seq<string>)
    requires SplitsInto(s, ws) && SplitsInto(s, vs)
    ensures ws == vs
    decreases |ws|
  {
    SplitsEmpty(s, ws);
    SplitsEmpty(s, vs);
    if |ws| > 0 {
      var i: nat, j: nat :| WordAt(s, ws[0], i, j) && SplitsInto(s[j..], ws[1..]);
      var i': nat, j': nat :| WordAt(s, vs[0], i', j') && SplitsInto(s[j'..], vs[1..]);
      WordAtUnique(s, ws[0], i, j, vs[0], i', j');
      SplitUnique(s[j..], ws[1..], vs[1..]);
      assert ws == [ws[0]] + ws[1..] && vs == [vs[0]] + vs[1..];
    }
  }

  /** Any reading of `s` as whitespace-separated words is `s.split()`. */
  lemma SplitIsWords(s: string, ws: seq<string>)
    requires SplitsInto(s, ws)
    ensures ws == Words(s)
  {
    WordsSplit(s);
    SplitUnique(s, ws, Words(s));
  }

  /** `s.split()[:2]`. */
  function FirstTwoWords(s: string): (ws: seq<string>)
    ensures |ws| <= 2
  {
    var all := Words(s);
    if |all| <= 2 then all else all[..2]
  }

  /** `needle in hay` for strings. */
  predicate Contains(needle: string, hay: string)
    decreases |hay|
  {
    (|needle| <= |hay| && hay[..|needle|] == needle)
    || (|hay| > 0 && Contains(needle, hay[1..]))
  }

  /** `needle` occurs in `hay` starting at offset `i`. */
  predicate OccursAt(needle: string, hay: string, i: int) {
    0 <= i && i + |needle| <= |hay| && hay[i..i + |needle|] == needle
  }

  /** The `in` test finds exactly the occurrences at some offset. */
  lemma {:induction false} ContainsMeansOccurs(needle: string, hay: string)
    ensures Contains(needle, hay) <==> exists i :: OccursAt(needle, hay, i)
    decreases |hay|
  {
    if Contains(needle, hay) {
      if |needle| <= |hay| && hay[..|needle|] == needle {
        assert OccursAt(needle, hay, 0);
      } else {
        ContainsMeansOccurs(needle, hay[1..]);
        var i :| OccursAt(needle, hay[1..], i);
        assert hay[1..][i..i + |needle|] == hay[i + 1..i + 1 + |needle|];
        assert OccursAt(needle, hay, i + 1);
      }
    }
    if exists i :: OccursAt(needle, hay, i) {
      var i :| OccursAt(needle, hay, i);
      if i > 0 {
        assert hay[1..][i - 1..i - 1 + |needle|] == hay[i..i + |needle|];
        assert OccursAt(needle, hay[1..], i - 1);
        ContainsMeansOccurs(needle, hay[1..]);
      } else {
        assert hay[..|needle|] == needle;
      }
    }
  }

  /** `c.upper()` on the ASCII letters. */
  function UpperChar(c: char): char {
    if 'a' <= c <= 'z' then (c as int - 32) as char else c
  }

  /** `c.lower()` on the ASCII letters. */
  function LowerChar(c: char): char {
    if 'A' <= c <= 'Z' then (c as int + 32) as char else c
  }

  function Upper(s: string): (r: string)
    ensures |r| == |s|
  {
    seq(|s|, i requires 0 <= i < |s| => UpperChar(s[i]))
  }

  function Lower(s: string): (r: string)
    ensures |r| == |s|
  {
    seq(|s|, i requires 0 <= i < |s| => LowerChar(s[i]))
  }

  /** Upper-casing leaves no lower-case ASCII letter, so doing it twice is
      doing it once. */
  lemma UpperIdempotent(s: string)
    ensures Upper(Upper(s)) == Upper(s)
  {
    var u := Upper(s);
    assert forall k :: 0 <= k < |u| ==> UpperChar(u[k]) == u[k];
  }

  /** Upper-casing keeps whitespace where it was. */
  lemma UpperKeepsSpace(s: string)
    ensures forall k :: 0 <= k < |s| ==> (IsSpace(Upper(s)[k]) <==> IsSpace(s[k]))
  {
  }

  /** No lower-case ASCII letter occurs in `s`. */
  predicate IsUpper(s: string) {
    forall k :: 0 <= k < |s| ==> UpperChar(s[k]) == s[k]
  }

  /** An upper-case string is a fixed point of `upper`. */
  lemma UpperOfUpper(s: string)
    requires IsUpper(s)
    ensures Upper(s) == s
  {
  }

  /** Stripping an upper-case string leaves it upper-case. */
  lemma StripKeepsUpper(s: string)
    requires IsUpper(s)
    ensures IsUpper(Strip(s))
  {
    var i := LeadingSpace(s);
    var j := i + TrimmedLength(s[i..]);
    var t := s[i..j];
    assert Strip(s) == t;
    assert forall k :: 0 <= k < |t| ==> t[k] == s[i + k];
  }

  /** Stripping an upper-cased string leaves it upper-cased. */
  lemma UpperOfStrip(s: string)
    ensures Upper(Strip(Upper(s))) == Strip(Upper(s))
  {
    assert IsUpper(Upper(s));
    StripKeepsUpper(Upper(s));
    UpperOfUpper(Strip(Upper(s)));
  }
}
