// The parts of Python's `str` that the generator relies on, over ASCII:
// character classes (`\w`, `\s`, `[A-Z]`, `[a-z]`), `lower()`, `in`,
// `replace(p, '')`, `strip()`, `split(c)`, `find(c)` and `sep.join(...)`.
module Text {

  predicate IsUpper(c: char) { 'A' <= c <= 'Z' }

  predicate IsLower(c: char) { 'a' <= c <= 'z' }

  predicate IsDigit(c: char) { '0' <= c <= '9' }

  /** Regex `\w` (ASCII). */
  predicate IsWord(c: char) { IsUpper(c) || IsLower(c) || IsDigit(c) || c == '_' }

  /** Regex `\s` and the characters `strip()` removes (ASCII). */
  predicate IsSpace(c: char)
  {
    c == ' ' || c == '\t' || c == '\n' || c == '\r' || c == '\U{000B}' || c == '\U{000C}'
    || ('\U{001C}' <= c <= '\U{001F}')
  }

  predicate NoUpper(s: string)
  {
    forall i :: 0 <= i < |s| ==> !IsUpper(s[i])
  }

  function LowerChar(c: char): (d: char)
    ensures !IsUpper(d)
    ensures IsUpper(c) ==> d as int == c as int + 32
    ensures !IsUpper(c) ==> d == c
  {
    if IsUpper(c) then (c as int + 32) as char else c
  }

  /** `s.lower()` */
  function Lower(s: string): (r: string)
    ensures |r| == |s| && NoUpper(r)
    ensures forall i :: 0 <= i < |s| ==> r[i] == LowerChar(s[i])
  {
    if s == [] then [] else [LowerChar(s[0])] + Lower(s[1..])
  }

  lemma {:induction false} LowerOfNoUpper(s: string)
    requires NoUpper(s)
    ensures Lower(s) == s
  {
    if s != [] {
      LowerOfNoUpper(s[1..]);
    }
  }

  lemma {:induction false} LowerConcat(a: string, b: string)
    ensures Lower(a + b) == Lower(a) + Lower(b)
  {
    if a != [] {
      assert (a + b)[1..] == a[1..] + b;
      LowerConcat(a[1..], b);
    } else {
      assert a + b == b;
    }
  }

  /** Python `p in s` on strings: `p` occurs as a contiguous substring of `s`. */
  predicate Contains(s: string, p: string)
    decreases |s|
  {
    p <= s || (s != [] && Contains(s[1..], p))
  }

  lemma {:induction false} ContainsAt(s: string, p: string, i: nat)
    requires i + |p| <= |s| && s[i..i + |p|] == p
    ensures Contains(s, p)
  {
    if i > 0 {
      assert s[1..][i - 1..i - 1 + |p|] == s[i..i + |p|];
      ContainsAt(s[1..], p, i - 1);
    }
  }

  /** `s.replace(p, '')`: every non-overlapping occurrence of `p`, found from the
      left, is deleted. An empty `p` leaves `s` as it is. */
  function RemoveAll(s: string, p: string): (r: string)
    ensures |r| <= |s|
    ensures forall i :: 0 <= i < |r| ==> r[i] in s
    ensures !Contains(s, p) ==> r == s
    ensures p != [] && Contains(s, p) ==> |r| < |s|
    decreases |s|
  {
    if p == [] || s == [] then s
    else if p <= s then RemoveAll(s[|p|..], p)
    else [s[0]] + RemoveAll(s[1..], p)
  }

  lemma RemoveAllNoUpper(s: string, p: string)
    requires NoUpper(s)
    ensures NoUpper(RemoveAll(s, p))
  {
    var r := RemoveAll(s, p);
    forall i | 0 <= i < |r| ensures !IsUpper(r[i]) {
      var j :| 0 <= j < |s| && s[j] == r[i];
    }
  }

  /** Removal only changes the text when the pattern occurs in it. */
  lemma RemoveAllIdentity(s: string, p: string)
    requires p != []
    ensures RemoveAll(s, p) == s <==> !Contains(s, p)
  {
  }

  /** Number of whitespace characters that open `s`. */
  function LeadingSpace(s: string): (n: nat)
    ensures n <= |s|
    ensures forall i :: 0 <= i < n ==> IsSpace(s[i])
    ensures n < |s| ==> !IsSpace(s[n])
  {
    if s != [] && IsSpace(s[0]) then 1 + LeadingSpace(s[1..]) else 0
  }

  /** Number of whitespace characters that close `s`. */
  function TrailingSpace(s: string): (n: nat)
    ensures n <= |s|
    ensures forall i :: |s| - n <= i < |s| ==> IsSpace(s[i])
    ensures n < |s| ==> !IsSpace(s[|s| - 1 - n])
  {
    if s != [] && IsSpace(s[|s| - 1]) then 1 + TrailingSpace(s[..|s| - 1]) else 0
  }

  function StripAt(s: string, a: nat, t: nat): string
    requires a <= |s| && t <= |s|
  {
    if a >= |s| - t then [] else s[a..|s| - t]
  }

  /** `s.strip()` */
  function Strip(s: string): (r: string)
    ensures |r| <= |s|
    ensures r != [] ==> !IsSpace(r[0]) && !IsSpace(r[|r| - 1])
  {
    StripAt(s, LeadingSpace(s), TrailingSpace(s))
  }

  /** What `strip()` leaves is the slice of `s` between whitespace-only ends. */
  lemma StripIsSlice(s: string)
    ensures exists a, b :: 0 <= a <= b <= |s| && Strip(s) == s[a..b]
                        && (forall i :: 0 <= i < a ==> IsSpace(s[i]))
                        && (forall i :: b <= i < |s| ==> IsSpace(s[i]))
  {
    var a := LeadingSpace(s);
    var b := if a == |s| then |s| else |s| - TrailingSpace(s);
    assert Strip(s) == s[a..b];
  }

  /** `s.find(c)` when `c in s`. */
  function IndexOf(s: string, c: char): (i: nat)
    requires c in s
    ensures i < |s| && s[i] == c
    ensures forall j :: 0 <= j < i ==> s[j] != c
  {
    if s[0] == c then 0 else 1 + IndexOf(s[1..], c)
  }

  /** `s.split(c)`: the pieces between the separators, at least one. */
  function Split(s: string, c: char): (parts: seq<string>)
    ensures |parts| >= 1
    ensures forall i :: 0 <= i < |parts| ==> c !in parts[i]
    decreases |s|
  {
    if c !in s then [s]
    else
      var i := IndexOf(s, c);
      [s[..i]] + Split(s[i + 1..], c)
  }

  /** `sep.join(parts)` */
  function Join(parts: seq<string>, sep: string): string
  {
    if |parts| == 0 then []
    else if |parts| == 1 then parts[0]
    else parts[0] + sep + Join(parts[1..], sep)
  }

  /** Splitting on a character and joining back with it gives the text back. */
  lemma {:induction false} JoinSplit(s: string, c: char)
    ensures Join(Split(s, c), [c]) == s
    decreases |s|
  {
    if c in s {
      var i := IndexOf(s, c);
      var rest := Split(s[i + 1..], c);
      JoinSplit(s[i + 1..], c);
      assert Split(s, c) == [s[..i]] + rest;
      assert s == s[..i] + [c] + s[i + 1..];
    }
  }

  /** Number of pieces that are not blank once stripped. */
  function CountNonBlank(pieces: seq<string>): nat
  {
    if pieces == [] then 0
    else (if Strip(pieces[0]) == [] then 0 else 1) + CountNonBlank(pieces[1..])
  }

  lemma {:induction false} CountNonBlankSnoc(pieces: seq<string>, p: string)
    ensures CountNonBlank(pieces + [p]) == CountNonBlank(pieces) + (if Strip(p) == [] then 0 else 1)
    decreases |pieces|
  {
    if pieces == [] {
      assert pieces + [p] == [p];
    } else {
      assert (pieces + [p])[1..] == pieces[1..] + [p];
      CountNonBlankSnoc(pieces[1..], p);
    }
  }

  /** Text with no whitespace in it is its own `strip()`. */
  lemma StripUnspaced(s: string)
    requires forall i :: 0 <= i < |s| ==> !IsSpace(s[i])
    ensures Strip(s) == s
  {
    assert LeadingSpace(s) == 0;
    assert TrailingSpace(s) == 0;
  }

  /** A prefix `q` of `s` that holds no copy of the pattern's first character
      survives `replace(p, '')`: no occurrence can start inside it. */
  lemma {:induction false} RemoveAllKeepsPrefix(s: string, p: string, q: string)
    requires p != [] && q <= s && p[0] !in q
    ensures q <= RemoveAll(s, p)
    decreases |q|
  {
    if q != [] {
      assert s[0] == q[0];
      assert !(p <= s);
      assert q[1..] <= s[1..];
      assert p[0] !in q[1..];
      RemoveAllKeepsPrefix(s[1..], p, q[1..]);
    }
  }
}
