/** Text helpers that mirror Python's `str.strip()`, `str.split(sep, 1)`,
    the pipe-joined f-strings used as signing payloads, and decimal rendering
    of integers. */
module Text {

  /** The characters Python's `str.isspace()` accepts (and `str.strip()`
      removes): whitespace of bidirectional class WS, B or S, or category Zs. */
  predicate IsSpace(c: char) {
    var n := c as int;
    (9 <= n <= 13) || (28 <= n <= 32) || n == 0x85 || n == 0xA0 || n == 0x1680
    || (0x2000 <= n <= 0x200A) || n == 0x2028 || n == 0x2029 || n == 0x202F
    || n == 0x205F || n == 0x3000
  }

  predicate AllSpace(s: string) {
    forall k :: 0 <= k < |s| ==> IsSpace(s[k])
  }

  /** `s.lstrip()`: the longest suffix of `s` that does not start with
      whitespace. */
  function StripLeft(s: string): (r: string)
    ensures |r| <= |s| && r == s[|s| - |r|..]
    ensures r == [] || !IsSpace(r[0])
    ensures AllSpace(s[..|s| - |r|])
  {
    if |s| > 0 && IsSpace(s[0]) then StripLeft(s[1..]) else s
  }

  /** `s.rstrip()`: the longest prefix of `s` that does not end with
      whitespace. */
  function StripRight(s: string): (r: string)
    ensures |r| <= |s| && r == s[..|r|]
    ensures r == [] || !IsSpace(r[|r| - 1])
    ensures AllSpace(s[|r|..])
  {
    if |s| > 0 && IsSpace(s[|s| - 1]) then
      var t := s[..|s| - 1];
      var r := StripRight(t);
      assert s[..|r|] == t[..|r|];
      assert s[|r|..] == t[|r|..] + [s[|s| - 1]];
      r
    else
      assert s[|s|..] == [];
      s
  }

  /** `s.strip()`: `s` without leading and trailing whitespace. */
  function Strip(s: string): (r: string)
    ensures r == [] || (!IsSpace(r[0]) && !IsSpace(r[|r| - 1]))
    ensures r == [] <==> AllSpace(s)
    ensures exists i, j :: 0 <= i <= j <= |s| && r == s[i..j] && AllSpace(s[..i]) && AllSpace(s[j..])
  {
    var l := StripLeft(s);
    var r := StripRight(l);
    TrimmedSlice(s, l, r);
    r
  }

  /** A prefix `r` of a suffix `l` of `s`, each cut only at whitespace, is
      the slice of `s` between two whitespace runs. */
  lemma TrimmedSlice(s: string, l: string, r: string)
    requires |l| <= |s| && l == s[|s| - |l|..] && AllSpace(s[..|s| - |l|])
    requires |r| <= |l| && r == l[..|r|] && AllSpace(l[|r|..])
    requires r == [] || !IsSpace(r[0])
    ensures var i := |s| - |l|; r == s[i..i + |r|] && AllSpace(s[i + |r|..])
    ensures r == [] <==> AllSpace(s)
  {
    var i := |s| - |l|;
    assert s == s[..i] + l;
    if r == [] {
      assert l == l[|r|..];
    } else {
      assert s[i] == r[0];
    }
  }

  /** The whitespace `strip()` removes from either end of `s`. */
  lemma StripPadding(s: string) returns (pre: string, post: string)
    ensures AllSpace(pre) && AllSpace(post) && s == pre + Strip(s) + post
  {
    var i, j :| 0 <= i <= j <= |s| && Strip(s) == s[i..j] && AllSpace(s[..i]) && AllSpace(s[j..]);
    pre, post := s[..i], s[j..];
    assert s == pre + s[i..j] + post;
  }

  /** A stripped string is already stripped. */
  lemma StripIdempotent(s: string)
    ensures Strip(Strip(s)) == Strip(s)
  {
    var r := Strip(s);
    assert StripLeft(r) == r;
    assert StripRight(r) == r;
  }

  /** Whitespace added around a string does not survive `strip()`. */
  lemma {:induction false} StripIgnoresPadding(pre: string, s: string, post: string)
    requires AllSpace(pre) && AllSpace(post)
    ensures Strip(pre + s + post) == Strip(s)
  {
    var x := pre + s + post;
    assert x == pre + (s + post);
    StripLeftPadding(pre, s + post);
    StripLeftAppend(s, post);
    if AllSpace(s) {
      StripLeftAllSpace(post);
      StripLeftAllSpace(s);
      assert StripLeft(x) == [] == StripLeft(s);
    } else {
      StripRightPadding(StripLeft(s), post);
      assert StripLeft(x) == StripLeft(s) + post;
      assert StripRight(StripLeft(x)) == StripRight(StripLeft(s));
    }
  }

  lemma {:induction false} StripLeftPadding(pre: string, s: string)
    requires AllSpace(pre)
    ensures StripLeft(pre + s) == StripLeft(s)
  {
    if pre != [] {
      assert (pre + s)[0] == pre[0] && IsSpace(pre[0]);
      assert (pre + s)[1..] == pre[1..] + s;
      StripLeftPadding(pre[1..], s);
    } else {
      assert pre + s == s;
    }
  }

  lemma StripLeftAllSpace(s: string)
    requires AllSpace(s)
    ensures StripLeft(s) == []
  {
    var r := StripLeft(s);
    assert |r| > 0 ==> r[0] == s[|s| - |r|];
  }

  /** Left-stripping `s + post` either strips into `post` (when `s` is all
      whitespace) or leaves `post` untouched. */
  lemma {:induction false} StripLeftAppend(s: string, post: string)
    ensures !AllSpace(s) ==> StripLeft(s + post) == StripLeft(s) + post
    ensures AllSpace(s) ==> StripLeft(s + post) == StripLeft(post)
  {
    if s == [] {
      assert s + post == post;
    } else if IsSpace(s[0]) {
      assert (s + post)[1..] == s[1..] + post;
      StripLeftAppend(s[1..], post);
      if AllSpace(s[1..]) {
        assert AllSpace(s) by {
          forall k | 0 <= k < |s| ensures IsSpace(s[k]) {
            if k > 0 { assert s[k] == s[1..][k - 1]; }
          }
        }
      } else {
        assert !AllSpace(s);
      }
    } else {
      assert !AllSpace(s);
    }
  }

  lemma {:induction false} StripRightPadding(s: string, post: string)
    requires AllSpace(post)
    ensures StripRight(s + post) == StripRight(s)
  {
    if post != [] {
      var p := post[..|post| - 1];
      assert (s + post)[..|s + post| - 1] == s + p;
      assert AllSpace(p) by {
        forall k | 0 <= k < |p| ensures IsSpace(p[k]) { assert p[k] == post[k]; }
      }
      StripRightPadding(s, p);
    } else {
      assert s + post == s;
    }
  }

  /** `s.split(sep, 1)` unpacked into exactly two parts: present exactly when
      `sep` occurs in `s`; the parts are what precedes its first occurrence
      and everything after it. */
  function SplitOnce(s: string, sep: char): (r: Option2)
    ensures r.Pair? <==> sep in s
    ensures r.Pair? ==> s == r.head + [sep] + r.tail && sep !in r.head
  {
    if |s| == 0 then NoSplit
    else
      var rest := s[1..];
      assert s == [s[0]] + rest;
      if s[0] == sep then Pair([], rest)
      else match SplitOnce(rest, sep)
        case NoSplit => NoSplit
        case Pair(h, t) =>
          assert s == ([s[0]] + h) + [sep] + t;
          Pair([s[0]] + h, t)
  }

  datatype Option2 = NoSplit | Pair(head: string, tail: string)

  /** Joining two parts around a separator that the first part does not
      contain, then splitting, gives the parts back. */
  lemma {:induction false} SplitJoin(h: string, sep: char, t: string)
    requires sep !in h
    ensures SplitOnce(h + [sep] + t, sep) == Pair(h, t)
  {
    var s := h + [sep] + t;
    var r := SplitOnce(s, sep);
    assert sep in s by { assert s[|h|] == sep; }
    SplitPrefixUnique(h, t, r.head, r.tail, sep);
  }

  lemma SplitPrefixUnique(h1: string, t1: string, h2: string, t2: string, sep: char)
    requires sep !in h1 && sep !in h2
    requires h1 + [sep] + t1 == h2 + [sep] + t2
    ensures h1 == h2 && t1 == t2
  {
    var s := h1 + [sep] + t1;
    assert forall k :: 0 <= k < |h1| ==> s[k] == h1[k] && s[k] != sep;
    assert forall k :: 0 <= k < |h2| ==> s[k] == h2[k] && s[k] != sep;
    assert s[|h1|] == sep && s[|h2|] == sep;
    assert h1 == s[..|h1|] == h2;
    assert t1 == s[|h1| + 1..] == t2;
  }

  /** The fields joined with `sep` between consecutive ones, as an f-string
      `f"{a}|{b}|...|{z}"` builds them. */
  function Join(fields: seq<string>, sep: char): string
  {
    if |fields| == 0 then []
    else if |fields| == 1 then fields[0]
    else fields[0] + [sep] + Join(fields[1..], sep)
  }

  predicate Free(fields: seq<string>, sep: char) {
    forall i :: 0 <= i < |fields| ==> sep !in fields[i]
  }

  /** Joining is injective on field lists of one length whose fields do not
      contain the separator: the joined text determines every field. */
  lemma {:induction false} JoinInjective(f: seq<string>, g: seq<string>, sep: char)
    requires |f| == |g| && Free(f, sep) && Free(g, sep)
    requires Join(f, sep) == Join(g, sep)
    ensures f == g
  {
    if |f| == 1 {
      assert f == [f[0]] && g == [g[0]];
    } else if |f| > 1 {
      SplitPrefixUnique(f[0], Join(f[1..], sep), g[0], Join(g[1..], sep), sep);
      JoinInjective(f[1..], g[1..], sep);
      assert f == [f[0]] + f[1..] && g == [g[0]] + g[1..];
    }
  }

  function Digit(d: int): (c: char)
    requires 0 <= d < 10
    ensures '0' <= c <= '9'
  {
    "0123456789"[d]
  }

  predicate IsDigits(s: string) {
    forall k :: 0 <= k < |s| ==> '0' <= s[k] <= '9'
  }

  /** Decimal rendering of a natural number, as Python's `str(n)`. */
  function NatToString(n: nat): (r: string)
    ensures |r| > 0 && IsDigits(r)
    ensures n >= 10 ==> |r| >= 2
  {
    if n < 10 then [Digit(n)] else NatToString(n / 10) + [Digit(n % 10)]
  }

  /** Decimal rendering of an integer, as Python's `str(n)`. */
  function IntToString(n: int): (r: string)
    ensures |r| > 0 && forall k :: 0 <= k < |r| ==> r[k] == '-' || '0' <= r[k] <= '9'
  {
    if n < 0 then "-" + NatToString(-n) else NatToString(n)
  }

  lemma {:induction false} NatToStringInjective(a: nat, b: nat)
    requires NatToString(a) == NatToString(b)
    ensures a == b
  {
    if a >= 10 && b >= 10 {
      var sa, sb := NatToString(a), NatToString(b);
      assert sa[|sa| - 1] == Digit(a % 10) && sb[|sb| - 1] == Digit(b % 10);
      assert a % 10 == b % 10;
      assert sa[..|sa| - 1] == NatToString(a / 10);
      assert sb[..|sb| - 1] == NatToString(b / 10);
      NatToStringInjective(a / 10, b / 10);
    } else if a < 10 && b < 10 {
      assert NatToString(a)[0] == Digit(a);
    }
  }

  /** Distinct integers have distinct decimal renderings. */
  lemma IntToStringInjective(a: int, b: int)
    requires IntToString(a) == IntToString(b)
    ensures a == b
  {
    assert a < 0 ==> IntToString(a)[0] == '-';
    assert b < 0 ==> IntToString(b)[0] == '-';
    assert a >= 0 ==> IsDigits(IntToString(a));
    assert b >= 0 ==> IsDigits(IntToString(b));
    if a < 0 && b < 0 {
      assert NatToString(-a) == IntToString(a)[1..];
      NatToStringInjective(-a, -b);
    } else if a >= 0 && b >= 0 {
      NatToStringInjective(a, b);
    }
  }
}
