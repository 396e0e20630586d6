// `strip_comments`: the regex `//.*?$|/\*.*?\*/` (DOTALL, MULTILINE)
// substituted by one space, scanning left to right.
module Comments {
  import opened Wrappers
  import opened Text

  /** Where a line comment opened before `i` stops: the first newline at or
      after `i` (not consumed), or the end of the text (the lazy `.*?$`). */
  function LineEnd(s: string, i: nat): (k: nat)
    requires i <= |s|
    ensures i <= k <= |s|
    ensures k < |s| ==> s[k] == '\n'
    ensures forall j :: i <= j < k ==> s[j] != '\n'
    decreases |s| - i
  {
    if i == |s| || s[i] == '\n' then i else LineEnd(s, i + 1)
  }

  /** The first position at or after `i` where a block comment's closing
      star-slash pair starts, if there is one (the lazy `.*?` before it). */
  function BlockEnd(s: string, i: nat): (k: Option<nat>)
    requires i <= |s|
    ensures k.Some? ==> i <= k.value && k.value + 2 <= |s|
                        && s[k.value] == '*' && s[k.value + 1] == '/'
    ensures forall j :: i <= j && j + 1 < |s| && (k.Some? ==> j < k.value)
                        ==> !(s[j] == '*' && s[j + 1] == '/')
    decreases |s| - i
  {
    if i + 2 > |s| then None
    else if s[i] == '*' && s[i + 1] == '/' then Some(i)
    else BlockEnd(s, i + 1)
  }

  /** No `//` anywhere in `s`. */
  predicate NoDoubleSlash(s: string)
  {
    forall i :: 0 <= i < |s| - 1 ==> !(s[i] == '/' && s[i + 1] == '/')
  }

  /** `strip_comments(s)`. A line comment always matches once `//` is seen; a
      block comment only when it is closed, otherwise its slash is kept and
      the scan moves on by one character. */
  function StripComments(s: string): (r: string)
    ensures |r| <= |s|
    ensures r == [] <==> s == []
    ensures r != [] ==> r[0] == ' ' || r[0] == s[0]
    decreases |s|
  {
    if |s| >= 2 && s[0] == '/' && s[1] == '/' then
      " " + StripComments(s[LineEnd(s, 2)..])
    else if |s| >= 2 && s[0] == '/' && s[1] == '*' && BlockEnd(s, 2).Some? then
      " " + StripComments(s[BlockEnd(s, 2).value + 2..])
    else if s == [] then []
    else [s[0]] + StripComments(s[1..])
  }

  /** Text without any slash holds no comment and is returned unchanged. */
  lemma {:induction false} StripWithoutSlash(s: string)
    requires '/' !in s
    ensures StripComments(s) == s
    decreases |s|
  {
    if s != [] {
      assert '/' !in s[1..];
      StripWithoutSlash(s[1..]);
    }
  }

  /** The output never holds `//`: every line comment has been replaced, and
      a kept slash is never followed by another one. */
  lemma {:induction false} NoDoubleSlashLeft(s: string)
    ensures NoDoubleSlash(StripComments(s))
    decreases |s|
  {
    var r := StripComments(s);
    if |s| >= 2 && s[0] == '/' && s[1] == '/' {
      NoDoubleSlashLeft(s[LineEnd(s, 2)..]);
      SpacePrefix(StripComments(s[LineEnd(s, 2)..]));
    } else if |s| >= 2 && s[0] == '/' && s[1] == '*' && BlockEnd(s, 2).Some? {
      NoDoubleSlashLeft(s[BlockEnd(s, 2).value + 2..]);
      SpacePrefix(StripComments(s[BlockEnd(s, 2).value + 2..]));
    } else if s != [] {
      var t := StripComments(s[1..]);
      NoDoubleSlashLeft(s[1..]);
      assert r == [s[0]] + t;
      forall i | 0 <= i < |r| - 1 ensures !(r[i] == '/' && r[i + 1] == '/') {
        if i == 0 {
          assert r[1] == t[0];
        } else {
          assert r[i] == t[i - 1] && r[i + 1] == t[i];
        }
      }
    }
  }

  lemma SpacePrefix(t: string)
    requires NoDoubleSlash(t)
    ensures NoDoubleSlash(" " + t)
  {
    var r := " " + t;
    forall i | 0 <= i < |r| - 1 ensures !(r[i] == '/' && r[i + 1] == '/') {
      if i > 0 {
        assert r[i] == t[i - 1] && r[i + 1] == t[i];
      }
    }
  }
}
