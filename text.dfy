/**
 * The string operations the cog relies on, restricted to ASCII:
 * `str.lower`, `str.strip(chars)`, `str.isnumeric`, `int(...)`,
 * `str.join` and `str.replace`.
 */
module Text {

  /** Python's `str.lower` on ASCII letters; every other character is kept. */
  function LowerChar(c: char): (r: char)
    ensures 'A' <= c <= 'Z' ==> r as int == c as int + 32
    ensures !('A' <= c <= 'Z') ==> r == c
  {
    if 'A' <= c <= 'Z' then (c as int + 32) as char else c
  }

  function ToLower(s: string): (r: string)
    ensures |r| == |s|
    ensures forall i :: 0 <= i < |s| ==> r[i] == LowerChar(s[i])
  {
    seq(|s|, i requires 0 <= i < |s| => LowerChar(s[i]))
  }

  /** `a.lower() == b.lower()`, which is also how `re.I` compares literal text. */
  predicate EqualsIgnoreCase(a: string, b: string)
  {
    ToLower(a) == ToLower(b)
  }

  /** A character of the regular-expression class `\w`, in its ASCII form `[A-Za-z0-9_]`. */
  predicate IsWordChar(c: char)
  {
    ('a' <= c <= 'z') || ('A' <= c <= 'Z') || ('0' <= c <= '9') || c == '_'
  }

  predicate IsDigit(c: char)
  {
    '0' <= c <= '9'
  }

  /** `str.isnumeric` for ASCII: at least one character, and every character a digit. */
  predicate IsNumeric(s: string)
  {
    |s| > 0 && forall i :: 0 <= i < |s| ==> IsDigit(s[i])
  }

  function Pow10(k: nat): (p: nat)
    ensures p >= 1
  {
    if k == 0 then 1 else 10 * Pow10(k - 1)
  }

  /** `int(s)` for a string of decimal digits (leading zeros allowed). */
  function ParseNat(s: string): (n: nat)
    requires forall i :: 0 <= i < |s| ==> IsDigit(s[i])
    ensures n < Pow10(|s|)
  {
    if s == [] then 0
    else
      assert IsDigit(s[|s| - 1]);
      ParseNat(s[..|s| - 1]) * 10 + (s[|s| - 1] as int - '0' as int)
  }

  function DigitChar(d: nat): (c: char)
    requires d < 10
    ensures IsDigit(c) && c as int - '0' as int == d
  {
    ('0' as int + d) as char
  }

  /** The decimal digits of `n`, without leading zeros: what `str(n)` gives. */
  function ShowNat(n: nat): (r: string)
    ensures IsNumeric(r)
    ensures ParseNat(r) == n
  {
    if n < 10 then [DigitChar(n)]
    else
      var r := ShowNat(n / 10) + [DigitChar(n % 10)];
      assert r[..|r| - 1] == ShowNat(n / 10);
      r
  }

  /** `int(...)` ignores leading zeros. */
  lemma {:induction false} ParseNatLeadingZero(s: string)
    requires forall i :: 0 <= i < |s| ==> IsDigit(s[i])
    ensures ParseNat("0" + s) == ParseNat(s)
    decreases |s|
  {
    if s != [] {
      var n := |s| - 1;
      assert ("0" + s)[..|s|] == "0" + s[..n];
      ParseNatLeadingZero(s[..n]);
    } else {
      assert ("0" + s)[..0] == [];
    }
  }

  /** Index of the first character of `s` not in `cs` (`|s|` if there is none). */
  function StripStart(s: string, cs: set<char>): (k: nat)
    ensures k <= |s|
    ensures forall i :: 0 <= i < k ==> s[i] in cs
    ensures k < |s| ==> s[k] !in cs
    decreases |s|
  {
    if s == [] || s[0] !in cs then 0 else 1 + StripStart(s[1..], cs)
  }

  /** One past the index of the last character of `s` not in `cs` (0 if there is none). */
  function StripEnd(s: string, cs: set<char>): (k: nat)
    ensures k <= |s|
    ensures forall i :: k <= i < |s| ==> s[i] in cs
    ensures k > 0 ==> s[k - 1] !in cs
    decreases |s|
  {
    if s == [] || s[|s| - 1] !in cs then |s| else StripEnd(s[..|s| - 1], cs)
  }

  /** A run of strip characters in front of text that starts with another character is exactly what the left strip drops. */
  lemma {:induction false} StripStartAfter(p: string, q: string, cs: set<char>)
    requires forall c :: c in p ==> c in cs
    requires q != [] && q[0] !in cs
    ensures StripStart(p + q, cs) == |p|
    decreases |p|
  {
    if p != [] {
      assert (p + q)[1..] == p[1..] + q;
      assert p[0] in p;
      StripStartAfter(p[1..], q, cs);
    } else {
      assert p + q == q;
    }
  }

  /** A run of strip characters after text that ends with another character is exactly what the right strip drops. */
  lemma {:induction false} StripEndBefore(p: string, q: string, cs: set<char>)
    requires forall c :: c in q ==> c in cs
    requires p != [] && p[|p| - 1] !in cs
    ensures StripEnd(p + q, cs) == |p|
    decreases |q|
  {
    if q != [] {
      var n := |q| - 1;
      assert (p + q)[..|p + q| - 1] == p + q[..n];
      assert q[n] in q;
      StripEndBefore(p, q[..n], cs);
    } else {
      assert p + q == p;
    }
  }

  /** Stripping a text that starts and ends with kept characters, wrapped in strip characters, gives back the text. */
  lemma StripWrapped(pre: string, t: string, post: string, cs: set<char>)
    requires forall c :: c in pre ==> c in cs
    requires forall c :: c in post ==> c in cs
    requires t != [] && t[0] !in cs && t[|t| - 1] !in cs
    ensures Strip(pre + t + post, cs) == t
  {
    var s := pre + t + post;
    assert s == pre + (t + post);
    assert (t + post)[0] == t[0];
    StripStartAfter(pre, t + post, cs);
    assert s == (pre + t) + post;
    assert (pre + t)[|pre + t| - 1] == t[|t| - 1];
    StripEndBefore(pre + t, post, cs);
    assert s[|pre|..|pre| + |t|] == t;
  }

  /** Python's `s.strip(chars)`: drop leading and trailing characters that belong to `cs`. */
  function Strip(s: string, cs: set<char>): (r: string)
    ensures |r| <= |s|
    ensures r != [] ==> r[0] !in cs && r[|r| - 1] !in cs
    ensures r == [] <==> forall j :: 0 <= j < |s| ==> s[j] in cs
    ensures r != [] ==> StripStart(s, cs) < StripEnd(s, cs) && r == s[StripStart(s, cs)..StripEnd(s, cs)]
  {
    var a := StripStart(s, cs);
    var b := StripEnd(s, cs);
    if b <= a then
      assert forall j :: 0 <= j < |s| ==> s[j] in cs by {
        forall j | 0 <= j < |s| ensures s[j] in cs {
          if j >= b {} else {}
        }
      }
      []
    else
      assert s[a..b][0] == s[a];
      s[a..b]
  }

  /** `sep.join(ws)`. */
  function Join(ws: seq<string>, sep: string): (r: string)
    ensures ws == [] ==> r == []
    ensures |ws| == 1 ==> r == ws[0]
    decreases |ws|
  {
    if ws == [] then []
    else if |ws| == 1 then ws[0]
    else Join(ws[..|ws| - 1], sep) + sep + ws[|ws| - 1]
  }

  /** Joining two non-empty lists puts one separator between their joins. */
  lemma {:induction false} JoinAppend(a: seq<string>, b: seq<string>, sep: string)
    requires a != [] && b != []
    ensures Join(a + b, sep) == Join(a, sep) + sep + Join(b, sep)
    decreases |b|
  {
    var n := |b| - 1;
    var ab := a + b;
    assert ab[..|ab| - 1] == a + b[..n] && ab[|ab| - 1] == b[n];
    if n == 0 {
      assert a + b[..n] == a;
    } else {
      calc {
        Join(ab, sep);
        Join(a + b[..n], sep) + sep + b[n];
      == { JoinAppend(a, b[..n], sep); }
        Join(a, sep) + sep + Join(b[..n], sep) + sep + b[n];
      == { AppendAssoc(Join(a, sep) + sep, Join(b[..n], sep) + sep, b[n]);
           AppendAssoc(Join(a, sep) + sep, Join(b[..n], sep), sep); }
        (Join(a, sep) + sep) + (Join(b[..n], sep) + sep + b[n]);
      ==
        Join(a, sep) + sep + Join(b, sep);
      }
    }
  }

  /** String concatenation regroups freely. */
  lemma AppendAssoc(x: string, y: string, z: string)
    ensures x + (y + z) == (x + y) + z
  {
  }

  /** `pat` occurs in `s` starting at index `i`. */
  predicate OccursAt(s: string, pat: string, i: int)
  {
    0 <= i && i + |pat| <= |s| && s[i..i + |pat|] == pat
  }

  predicate Contains(s: string, pat: string)
  {
    exists i :: 0 <= i <= |s| && OccursAt(s, pat, i)
  }

  /**
   * Python's `s.replace(pat, rep)` for a non-empty `pat`: scan left to right,
   * replace every occurrence and resume after it, so occurrences never overlap
   * and the inserted text is never scanned again by this call.
   */
  function Replace(s: string, pat: string, rep: string): (r: string)
    requires |pat| > 0
    ensures |rep| == |pat| ==> |r| == |s|
    ensures rep == pat ==> r == s
    decreases |s|
  {
    if |s| < |pat| then s
    else if s[..|pat|] == pat then
      assert s == s[..|pat|] + s[|pat|..];
      rep + Replace(s[|pat|..], pat, rep)
    else
      assert s == [s[0]] + s[1..];
      [s[0]] + Replace(s[1..], pat, rep)
  }

  /** With no occurrence of `pat`, `replace` returns its input unchanged. */
  lemma {:induction false} ReplaceAbsent(s: string, pat: string, rep: string)
    requires |pat| > 0
    requires !Contains(s, pat)
    ensures Replace(s, pat, rep) == s
    decreases |s|
  {
    if |s| >= |pat| {
      assert !OccursAt(s, pat, 0);
      assert s[..|pat|] != pat;
      forall i | OccursAt(s[1..], pat, i) ensures false {
        assert s[1..][i..i + |pat|] == s[i + 1..i + 1 + |pat|];
        assert OccursAt(s, pat, i + 1);
      }
      ReplaceAbsent(s[1..], pat, rep);
    }
  }

  /** A text placed in front of the first occurrence is copied unchanged. */
  lemma {:induction false} ReplaceAfterPrefix(p: string, q: string, pat: string, rep: string)
    requires |pat| > 0
    requires forall i :: 0 <= i < |p| ==> !OccursAt(p + q, pat, i)
    ensures Replace(p + q, pat, rep) == p + Replace(q, pat, rep)
    decreases |p|
  {
    if p != [] {
      var s := p + q;
      assert !OccursAt(s, pat, 0);
      if |s| >= |pat| {
        assert s[..|pat|] != pat;
        assert s[1..] == p[1..] + q;
        forall i | 0 <= i < |p[1..]| ensures !OccursAt(p[1..] + q, pat, i) {
          assert !OccursAt(s, pat, i + 1);
          if i + |pat| <= |s[1..]| {
            assert s[1..][i..i + |pat|] == s[i + 1..i + 1 + |pat|];
          }
        }
        calc {
          Replace(s, pat, rep);
          [s[0]] + Replace(p[1..] + q, pat, rep);
        == { ReplaceAfterPrefix(p[1..], q, pat, rep); }
          [s[0]] + (p[1..] + Replace(q, pat, rep));
        == { AppendAssoc([s[0]], p[1..], Replace(q, pat, rep)); assert [s[0]] + p[1..] == p; }
          p + Replace(q, pat, rep);
        }
      } else {
        assert |q| < |pat|;
        assert !Contains(q, pat);
        ReplaceAbsent(q, pat, rep);
      }
    } else {
      assert p + q == q;
    }
  }
}
