// `convert_camel_to_underscore`: two regex substitutions that insert `_`
// at case boundaries, then `lower()`.
module CamelCase {
  import opened Text

  /** `r` is `s` with zero or more `_` characters inserted, and nothing else changed. */
  predicate UnderscoresInserted(s: string, r: string)
    decreases |r|
  {
    if r == [] then s == []
    else
      || (r[0] == '_' && UnderscoresInserted(s, r[1..]))
      || (s != [] && s[0] == r[0] && UnderscoresInserted(s[1..], r[1..]))
  }

  /** Length of the run of lower-case letters that starts `s` (greedy `[a-z]+`). */
  function LowerRun(s: string): (n: nat)
    ensures n <= |s|
    ensures forall i :: 0 <= i < n ==> IsLower(s[i])
    ensures n < |s| ==> !IsLower(s[n])
  {
    if s != [] && IsLower(s[0]) then 1 + LowerRun(s[1..]) else 0
  }

  /** `REGEX_CAMEL_TO_UNDERSCORE_R1.sub(r'\1_\2', s)` for `(.)([A-Z][a-z]+)`:
      any character but a newline, followed by a capitalised word, gets an
      `_` after it; the match consumes the whole word. */
  function CamelPass1(s: string): string
    decreases |s|
  {
    if |s| >= 3 && s[0] != '\n' && IsUpper(s[1]) && IsLower(s[2]) then
      var j := 2 + LowerRun(s[2..]);
      [s[0], '_'] + s[1..j] + CamelPass1(s[j..])
    else if s == [] then []
    else [s[0]] + CamelPass1(s[1..])
  }

  /** `REGEX_CAMEL_TO_UNDERSCORE_R2.sub(r'\1_\2', s)` for `([a-z0-9])([A-Z])`. */
  function CamelPass2(s: string): string
    decreases |s|
  {
    if |s| >= 2 && (IsLower(s[0]) || IsDigit(s[0])) && IsUpper(s[1]) then
      [s[0], '_', s[1]] + CamelPass2(s[2..])
    else if s == [] then []
    else [s[0]] + CamelPass2(s[1..])
  }

  /** `convert_camel_to_underscore(s)` */
  function ConvertCamelToUnderscore(s: string): (r: string)
    ensures NoUpper(r)
  {
    Lower(CamelPass2(CamelPass1(s)))
  }

  lemma {:induction false} InsertedRefl(s: string)
    ensures UnderscoresInserted(s, s)
    decreases |s|
  {
    if s != [] {
      InsertedRefl(s[1..]);
    }
  }

  lemma {:induction false} InsertedPrefix(p: string, s: string, r: string)
    requires UnderscoresInserted(s, r)
    ensures UnderscoresInserted(p + s, p + r)
    decreases |p|
  {
    if p != [] {
      InsertedPrefix(p[1..], s, r);
      assert (p + s)[1..] == p[1..] + s;
      assert (p + r)[1..] == p[1..] + r;
      assert (p + s)[0] == p[0] == (p + r)[0];
    } else {
      assert p + s == s && p + r == r;
    }
  }

  lemma {:induction false} InsertedTransitive(a: string, b: string, c: string)
    requires UnderscoresInserted(a, b) && UnderscoresInserted(b, c)
    ensures UnderscoresInserted(a, c)
    decreases |c|
  {
    if c != [] {
      if c[0] == '_' && UnderscoresInserted(b, c[1..]) {
        InsertedTransitive(a, b, c[1..]);
      } else {
        assert b != [] && b[0] == c[0] && UnderscoresInserted(b[1..], c[1..]);
        if b[0] == '_' && UnderscoresInserted(a, b[1..]) {
          InsertedTransitive(a, b[1..], c[1..]);
        } else {
          InsertedTransitive(a[1..], b[1..], c[1..]);
        }
      }
    }
  }

  /** Lowering both sides keeps the relation, since `_` is its own lower case. */
  lemma {:induction false} InsertedLower(s: string, r: string)
    requires UnderscoresInserted(s, r)
    ensures UnderscoresInserted(Lower(s), Lower(r))
    decreases |r|
  {
    if r != [] {
      assert Lower(r)[1..] == Lower(r[1..]);
      if r[0] == '_' && UnderscoresInserted(s, r[1..]) {
        InsertedLower(s, r[1..]);
      } else {
        InsertedLower(s[1..], r[1..]);
        assert Lower(s)[1..] == Lower(s[1..]);
      }
    }
  }

  lemma {:induction false} Pass1Inserts(s: string)
    ensures UnderscoresInserted(s, CamelPass1(s))
    decreases |s|
  {
    if |s| >= 3 && s[0] != '\n' && IsUpper(s[1]) && IsLower(s[2]) {
      var j := 2 + LowerRun(s[2..]);
      var rest := CamelPass1(s[j..]);
      Pass1Inserts(s[j..]);
      InsertedPrefix(s[1..j], s[j..], rest);
      assert s[1..j] + s[j..] == s[1..];
      var tail := s[1..j] + rest;
      assert ("_" + tail)[1..] == tail;
      assert UnderscoresInserted(s[1..], "_" + tail);
      var r := [s[0], '_'] + s[1..j] + rest;
      assert r == [s[0]] + ("_" + tail);
      assert r[1..] == "_" + tail;
    } else if s != [] {
      Pass1Inserts(s[1..]);
      assert ([s[0]] + CamelPass1(s[1..]))[1..] == CamelPass1(s[1..]);
    }
  }

  lemma {:induction false} Pass2Inserts(s: string)
    ensures UnderscoresInserted(s, CamelPass2(s))
    decreases |s|
  {
    if |s| >= 2 && (IsLower(s[0]) || IsDigit(s[0])) && IsUpper(s[1]) {
      var rest := CamelPass2(s[2..]);
      Pass2Inserts(s[2..]);
      var r := [s[0], '_', s[1]] + rest;
      assert r[1..][1..] == [s[1]] + rest;
      assert s[1..][1..] == s[2..];
      assert UnderscoresInserted(s[1..], [s[1]] + rest);
      assert UnderscoresInserted(s[1..], r[1..]);
    } else if s != [] {
      Pass2Inserts(s[1..]);
      assert ([s[0]] + CamelPass2(s[1..]))[1..] == CamelPass2(s[1..]);
    }
  }

  /** Inserting underscores brings in no other character. */
  lemma {:induction false} InsertedChars(s: string, r: string)
    requires UnderscoresInserted(s, r)
    ensures forall c :: c in r ==> c in s || c == '_'
    decreases |r|
  {
    if r != [] {
      assert forall c :: c in r ==> c == r[0] || c in r[1..];
      if r[0] == '_' && UnderscoresInserted(s, r[1..]) {
        InsertedChars(s, r[1..]);
      } else {
        InsertedChars(s[1..], r[1..]);
        assert forall c :: c in s[1..] ==> c in s;
      }
    }
  }

  /** The conversion returns the lower-cased input with only `_` inserted. */
  lemma ConvertInsertsUnderscores(s: string)
    ensures UnderscoresInserted(Lower(s), ConvertCamelToUnderscore(s))
  {
    Pass1Inserts(s);
    Pass2Inserts(CamelPass1(s));
    InsertedTransitive(s, CamelPass1(s), CamelPass2(CamelPass1(s)));
    InsertedLower(s, CamelPass2(CamelPass1(s)));
  }

  lemma {:induction false} Pass1NoUpper(s: string)
    requires NoUpper(s)
    ensures CamelPass1(s) == s
    decreases |s|
  {
    if s != [] {
      assert NoUpper(s[1..]);
      Pass1NoUpper(s[1..]);
    }
  }

  lemma {:induction false} Pass2NoUpper(s: string)
    requires NoUpper(s)
    ensures CamelPass2(s) == s
    decreases |s|
  {
    if s != [] {
      Pass2NoUpper(s[1..]);
    }
  }

  /** Converting twice is converting once: the output has no upper case, so
      neither regex matches again and `lower()` changes nothing. */
  lemma ConvertIdempotent(s: string)
    ensures ConvertCamelToUnderscore(ConvertCamelToUnderscore(s)) == ConvertCamelToUnderscore(s)
  {
    var t := ConvertCamelToUnderscore(s);
    Pass1NoUpper(t);
    Pass2NoUpper(t);
    LowerOfNoUpper(t);
  }
}
