/**
 * The few Python string operations the training and web code rely on: `str.endswith`,
 * `str.replace`, `str.rfind`, ASCII `str.lower`, decimal formatting in
 * f-strings, `os.path.join` and `os.path.splitext`.
 */
module Strings {

  predicate StartsWith(s: string, prefix: string)
  {
    |prefix| <= |s| && s[..|prefix|] == prefix
  }

  predicate EndsWith(s: string, suffix: string)
  {
    |suffix| <= |s| && s[|s| - |suffix|..] == suffix
  }

  /** `pat` occurs in `s` starting at position `i`. */
  predicate MatchAt(s: string, pat: string, i: int)
  {
    0 <= i && i + |pat| <= |s| && s[i..i + |pat|] == pat
  }

  /** `pat` occurs somewhere in `s`. */
  ghost predicate Occurs(s: string, pat: string)
  {
    exists i :: MatchAt(s, pat, i)
  }

  /**
   * `s.replace(pat, rep)`: scans left to right and replaces every
   * non-overlapping occurrence of `pat`.
   */
  function Replace(s: string, pat: string, rep: string): (r: string)
    requires |pat| > 0
    ensures |rep| == |pat| ==> |r| == |s|
    ensures |rep| <= |pat| ==> |r| <= |s|
    decreases |s|
  {
    if |s| == 0 then ""
    else if StartsWith(s, pat) then rep + Replace(s[|pat|..], pat, rep)
    else [s[0]] + Replace(s[1..], pat, rep)
  }

  /** A match at the front is replaced and the scan goes on after it. */
  lemma ReplaceAtMatch(pat: string, t: string, rep: string)
    requires |pat| > 0
    ensures Replace(pat + t, pat, rep) == rep + Replace(t, pat, rep)
  {
    assert (pat + t)[..|pat|] == pat && (pat + t)[|pat|..] == t;
  }

  /** A character that cannot start a match is kept and the scan goes on after it. */
  lemma ReplaceAtOther(c: char, t: string, pat: string, rep: string)
    requires |pat| > 0 && c != pat[0]
    ensures Replace([c] + t, pat, rep) == [c] + Replace(t, pat, rep)
  {
    assert ([c] + t)[0] == c && ([c] + t)[1..] == t;
  }

  /** Replacing one character by another changes exactly the positions holding it. */
  lemma {:induction false} ReplaceChar(s: string, c: char, d: char)
    ensures |Replace(s, [c], [d])| == |s|
    ensures forall i :: 0 <= i < |s| ==>
              Replace(s, [c], [d])[i] == if s[i] == c then d else s[i]
  {
    if |s| > 0 {
      ReplaceChar(s[1..], c, d);
      assert StartsWith(s, [c]) <==> s[0] == c;
      var r := Replace(s, [c], [d]);
      assert r == [if s[0] == c then d else s[0]] + Replace(s[1..], [c], [d]);
    }
  }

  lemma AbsentInTail(s: string, pat: string)
    requires |s| > 0 && !Occurs(s, pat)
    ensures !Occurs(s[1..], pat)
  {
    forall i ensures !MatchAt(s[1..], pat, i) {
      if 0 <= i && i + |pat| <= |s| - 1 {
        assert s[1..][i..i + |pat|] == s[i + 1..i + 1 + |pat|];
        assert !MatchAt(s, pat, i + 1);
      }
    }
  }

  /** A string in which the pattern never occurs is left as it is. */
  lemma {:induction false} ReplaceAbsent(s: string, pat: string, rep: string)
    requires |pat| > 0 && !Occurs(s, pat)
    ensures Replace(s, pat, rep) == s
  {
    if |s| > 0 {
      assert !MatchAt(s, pat, 0);
      AbsentInTail(s, pat);
      ReplaceAbsent(s[1..], pat, rep);
      assert s == [s[0]] + s[1..];
    }
  }

  /**
   * For a name `id + ".png"` where `id` holds no ".png", removing every
   * ".png" gives back `id`: ".png" cannot straddle the boundary.
   */
  lemma {:induction false} RemovePngSuffix(id: string)
    requires !Occurs(id, ".png")
    ensures Replace(id + ".png", ".png", "") == id
  {
    var t := id + ".png";
    if |id| == 0 {
      assert t == ".png" && StartsWith(t, ".png");
      assert t[4..] == "";
    } else {
      if |id| >= 4 {
        assert t[..4] == id[0..0 + 4];
        assert !MatchAt(id, ".png", 0);
      } else {
        assert t[|id|] == '.';
        assert ".png"[|id|] != '.';
      }
      assert !StartsWith(t, ".png");
      AbsentInTail(id, ".png");
      assert t[1..] == id[1..] + ".png";
      RemovePngSuffix(id[1..]);
      assert id == [id[0]] + id[1..];
    }
  }

  predicate IsDigit(c: char)
  {
    '0' <= c <= '9'
  }

  predicate AllDigits(s: string)
  {
    forall i :: 0 <= i < |s| ==> IsDigit(s[i])
  }

  function DigitChar(d: nat): (c: char)
    requires d < 10
    ensures IsDigit(c)
  {
    ('0' as int + d) as char
  }

  /** `str(n)` / `f"{n}"` for a non-negative integer: decimal, no leading zeros. */
  function NatToString(n: nat): (r: string)
    ensures |r| > 0 && AllDigits(r)
  {
    if n < 10 then [DigitChar(n)] else NatToString(n / 10) + [DigitChar(n % 10)]
  }

  function ParseDigits(s: string): nat
    requires AllDigits(s)
  {
    if |s| == 0 then 0
    else ParseDigits(s[..|s| - 1]) * 10 + (s[|s| - 1] as int - '0' as int)
  }

  lemma {:induction false} ParseNatToString(n: nat)
    ensures ParseDigits(NatToString(n)) == n
  {
    if n >= 10 {
      var s := NatToString(n);
      assert s[..|s| - 1] == NatToString(n / 10);
      ParseNatToString(n / 10);
    }
  }

  /** Distinct numbers are printed differently. */
  lemma NatToStringInjective(n: nat, m: nat)
    requires NatToString(n) == NatToString(m)
    ensures n == m
  {
    ParseNatToString(n);
    ParseNatToString(m);
  }

  /**
   * A run of digits followed by a non-digit separator splits uniquely:
   * `a + [sep] + x == b + [sep] + y` forces `a == b` and `x == y`.
   */
  lemma {:induction false} DigitsThenSeparator(a: string, x: string, b: string, y: string, sep: char)
    requires AllDigits(a) && AllDigits(b) && !IsDigit(sep)
    requires a + [sep] + x == b + [sep] + y
    ensures a == b && x == y
  {
    var l, r := a + [sep] + x, b + [sep] + y;
    if |a| == 0 {
      assert l[0] == sep;
      assert x == l[1..] && y == r[1..];
    } else {
      assert l[0] == a[0];
      assert l[1..] == a[1..] + [sep] + x && r[1..] == b[1..] + [sep] + y;
      DigitsThenSeparator(a[1..], x, b[1..], y, sep);
      assert a == [a[0]] + a[1..] && b == [b[0]] + b[1..];
    }
  }

  /** `os.path.join(a, b)` on POSIX. */
  function PathJoin(a: string, b: string): (r: string)
    ensures EndsWith(r, b)
    ensures StartsWith(b, "/") ==> r == b
    ensures !StartsWith(b, "/") && a != "" && !EndsWith(a, "/") ==> r == a + "/" + b
  {
    if StartsWith(b, "/") then b
    else if a == "" || EndsWith(a, "/") then a + b
    else a + "/" + b
  }

  /** Joining one directory with two different relative names gives two different paths. */
  lemma PathJoinInjective(out: string, a: string, b: string)
    requires !StartsWith(a, "/") && !StartsWith(b, "/") && a != b
    ensures PathJoin(out, a) != PathJoin(out, b)
  {
    var pre := if out == "" || EndsWith(out, "/") then out else out + "/";
    assert PathJoin(out, a) == pre + a && PathJoin(out, b) == pre + b;
    assert (pre + a)[|pre|..] == a && (pre + b)[|pre|..] == b;
  }

  /** `s.rfind(c)`: the position of the last `c` in `s`, or -1 when there is none. */
  function RFind(s: string, c: char): (r: int)
    ensures -1 <= r < |s|
    ensures r >= 0 ==> s[r] == c
    ensures forall k :: r < k < |s| ==> s[k] != c
  {
    if |s| == 0 then -1
    else if s[|s| - 1] == c then |s| - 1
    else RFind(s[..|s| - 1], c)
  }

  /**
   * `os.path.splitext(name)[1]` for a name without `/`: the text from the
   * last `.` on, unless nothing but dots comes before that `.`.
   */
  function Extension(name: string): (e: string)
    ensures e == "" || (e[0] == '.' && EndsWith(name, e))
    ensures forall k :: 0 < k < |e| ==> e[k] != '.'
  {
    var d := RFind(name, '.');
    if d > 0 && exists j :: 0 <= j < d && name[j] != '.' then name[d..] else ""
  }

  /** A name without a dot has no extension. */
  lemma ExtensionOfDotless(name: string)
    requires forall i :: 0 <= i < |name| ==> name[i] != '.'
    ensures Extension(name) == ""
  {
    assert RFind(name, '.') == -1;
  }

  /** A stem that does not start with a dot, then a dot and a dot-free suffix. */
  lemma ExtensionAfterStem(stem: string, ext: string)
    requires |stem| > 0 && stem[0] != '.'
    requires forall i :: 0 <= i < |ext| ==> ext[i] != '.'
    ensures Extension(stem + "." + ext) == "." + ext
  {
    var name := stem + "." + ext;
    var d := RFind(name, '.');
    assert name[|stem|] == '.';
    assert forall k :: |stem| < k < |name| ==> name[k] == ext[k - |stem| - 1];
    assert d == |stem|;
    assert name[0] != '.';
    assert name[d..] == "." + ext;
  }

  /** `s.lower()` on ASCII letters; every other character is kept. */
  function AsciiLower(s: string): (r: string)
    ensures |r| == |s|
    ensures forall i :: 0 <= i < |s| && !('A' <= s[i] <= 'Z') ==> r[i] == s[i]
    ensures forall i :: 0 <= i < |s| && 'A' <= s[i] <= 'Z' ==> r[i] == (s[i] as int + 32) as char
    ensures forall i :: 0 <= i < |s| ==> !('A' <= r[i] <= 'Z')
  {
    if |s| == 0 then ""
    else [if 'A' <= s[0] <= 'Z' then (s[0] as int + 32) as char else s[0]] + AsciiLower(s[1..])
  }
}
