/** Small building blocks shared by the rest of the model: an optional value,
    Python's decimal formatting of integers (`str(n)`, `f"{n}"`) together with
    its inverse `int(s)`, `str.replace(c, '')`, `str.strip()` and
    `os.path.join` / `os.path.basename` on POSIX paths. */
module Common {

  datatype Option<+T> = None | Some(value: T) {
    function GetOr(default: T): T {
      match this
      case Some(v) => v
      case None => default
    }
  }

  /** `[f(x) for x in s]`. */
  function MapSeq<A, B>(s: seq<A>, f: A -> B): (r: seq<B>)
    ensures |r| == |s|
    ensures forall k :: 0 <= k < |s| ==> r[k] == f(s[k])
  {
    if s == [] then [] else MapSeq(s[..|s| - 1], f) + [f(s[|s| - 1])]
  }

  lemma MapSeqSnoc<A, B>(s: seq<A>, x: A, f: A -> B)
    ensures MapSeq(s + [x], f) == MapSeq(s, f) + [f(x)]
  {
    assert (s + [x])[..|s|] == s;
  }

  // ---------------------------------------------------------------------------
  // Decimal digits
  // ---------------------------------------------------------------------------

  predicate IsDigit(c: char) {
    '0' <= c <= '9'
  }

  predicate AllDigits(s: string) {
    forall i :: 0 <= i < |s| ==> IsDigit(s[i])
  }

  function DigitChar(d: nat): (c: char)
    requires d < 10
    ensures IsDigit(c) && c as int - '0' as int == d
  {
    (d + '0' as int) as char
  }

  function DigitValue(c: char): nat
    requires IsDigit(c)
  {
    c as int - '0' as int
  }

  /** `str(n)` for a non-negative Python int: the shortest decimal numeral. */
  function NatToString(n: nat): (s: string)
    ensures 1 <= |s| && IsDigit(s[0])
    ensures |s| > 1 ==> s[0] != '0'
  {
    if n < 10 then [DigitChar(n)] else NatToString(n / 10) + [DigitChar(n % 10)]
  }

  /** A numeral is made of digits only. */
  lemma {:induction false} NatToStringDigits(n: nat)
    ensures AllDigits(NatToString(n))
  {
    if n >= 10 {
      NatToStringDigits(n / 10);
      var s := NatToString(n);
      forall i | 0 <= i < |s| ensures IsDigit(s[i]) {
        if i < |s| - 1 {
          assert s[i] == NatToString(n / 10)[i];
        }
      }
    }
  }

  /** `str(i)` for any Python int: a minus sign before the numeral of `-i`. */
  function IntToString(i: int): (s: string)
    ensures 1 <= |s|
    ensures i >= 0 <==> s[0] != '-'
  {
    if i < 0 then "-" + NatToString(-i) else NatToString(i)
  }

  /** The value of a numeral, read left to right (leading zeros allowed). */
  function DigitsValue(s: string): nat
    requires AllDigits(s)
  {
    if s == [] then 0 else DigitsValue(s[..|s| - 1]) * 10 + DigitValue(s[|s| - 1])
  }

  /** Python's `int(s)` restricted to an optional minus sign and ASCII digits;
      any other string raises ValueError, modelled as None. */
  function ParseInt(s: string): (r: Option<int>)
    ensures r.Some? ==> |s| >= 1
  {
    if |s| >= 2 && s[0] == '-' && AllDigits(s[1..]) then Some(0 - DigitsValue(s[1..]) as int)
    else if |s| >= 1 && AllDigits(s) then Some(DigitsValue(s))
    else None
  }

  lemma {:induction false} DigitsValueOfNatToString(n: nat)
    ensures AllDigits(NatToString(n)) && DigitsValue(NatToString(n)) == n
  {
    NatToStringDigits(n);
    if n >= 10 {
      NatToStringDigits(n / 10);
      var s := NatToString(n / 10) + [DigitChar(n % 10)];
      assert s[..|s| - 1] == NatToString(n / 10);
      DigitsValueOfNatToString(n / 10);
    }
  }

  /** `int(str(i)) == i`: the numeral read back gives the number. */
  lemma ParseIntOfIntToString(i: int)
    ensures ParseInt(IntToString(i)) == Some(i)
  {
    var s := IntToString(i);
    if i < 0 {
      var t := NatToString(-i);
      assert s[0] == '-' && s[1..] == t;
      DigitsValueOfNatToString(-i);
    } else {
      DigitsValueOfNatToString(i);
      assert s[0] != '-';
    }
  }

  /** Distinct integers have distinct numerals. */
  lemma IntToStringInjective(a: int, b: int)
    requires IntToString(a) == IntToString(b)
    ensures a == b
  {
    ParseIntOfIntToString(a);
    ParseIntOfIntToString(b);
  }

  // ---------------------------------------------------------------------------
  // str.replace(c, '')
  // ---------------------------------------------------------------------------

  /** `s.replace(c, '')`: every occurrence of `c` removed, the rest kept in order. */
  function RemoveChar(s: string, c: char): (r: string)
    ensures c !in r
    ensures |r| <= |s|
    ensures c !in s ==> r == s
  {
    if s == [] then []
    else if s[0] == c then RemoveChar(s[1..], c)
    else [s[0]] + RemoveChar(s[1..], c)
  }

  lemma {:induction false} RemoveCharAppend(a: string, b: string, c: char)
    ensures RemoveChar(a + b, c) == RemoveChar(a, c) + RemoveChar(b, c)
  {
    if a != [] {
      assert (a + b)[1..] == a[1..] + b;
      RemoveCharAppend(a[1..], b, c);
    } else {
      assert a + b == b;
    }
  }

  // ---------------------------------------------------------------------------
  // str.strip()
  // ---------------------------------------------------------------------------

  /** The characters for which Python's `str.isspace()` holds. */
  predicate IsWhitespace(c: char) {
    c == ' ' || '\t' <= c <= '\r' || '\U{1C}' <= c <= '\U{1F}' ||
    c == '\U{85}' || c == '\U{A0}' || c == '\U{1680}' ||
    '\U{2000}' <= c <= '\U{200A}' || c == '\U{2028}' || c == '\U{2029}' ||
    c == '\U{202F}' || c == '\U{205F}' || c == '\U{3000}'
  }

  predicate AllWhitespace(s: string) {
    forall i :: 0 <= i < |s| ==> IsWhitespace(s[i])
  }

  /** Neither end of `s` is whitespace (vacuous for the empty string). */
  predicate IsStripped(s: string) {
    s != [] ==> !IsWhitespace(s[0]) && !IsWhitespace(s[|s| - 1])
  }

  /** Number of leading whitespace characters. */
  function LeadingWhitespace(s: string): (n: nat)
    ensures n <= |s|
    ensures n < |s| ==> !IsWhitespace(s[n])
  {
    if s == [] || !IsWhitespace(s[0]) then 0
    else 1 + LeadingWhitespace(s[1..])
  }

  /** Everything `LeadingWhitespace` counts is whitespace. */
  lemma {:induction false} LeadingWhitespaceIsWhitespace(s: string)
    ensures AllWhitespace(s[..LeadingWhitespace(s)])
  {
    if s != [] && IsWhitespace(s[0]) {
      LeadingWhitespaceIsWhitespace(s[1..]);
      var n := LeadingWhitespace(s);
      forall i | 0 <= i < n ensures IsWhitespace(s[..n][i]) {
        if i > 0 {
          assert s[..n][i] == s[1..][..n - 1][i - 1];
        }
      }
    }
  }

  /** Length of `s` once trailing whitespace is dropped. */
  function TrailingCut(s: string): (n: nat)
    ensures n <= |s|
    ensures n > 0 ==> !IsWhitespace(s[n - 1])
  {
    if s == [] || !IsWhitespace(s[|s| - 1]) then |s|
    else
      TrailingCut(s[..|s| - 1])
  }

  /** Everything `TrailingCut` drops is whitespace. */
  lemma {:induction false} TrailingCutIsWhitespace(s: string)
    ensures AllWhitespace(s[TrailingCut(s)..])
  {
    if s != [] && IsWhitespace(s[|s| - 1]) {
      var init := s[..|s| - 1];
      TrailingCutIsWhitespace(init);
      var n := TrailingCut(s);
      forall i | 0 <= i < |s| - n ensures IsWhitespace(s[n..][i]) {
        if n + i < |s| - 1 {
          assert s[n..][i] == init[n..][i];
        }
      }
    }
  }

  /** `s.strip()`: the slice of `s` from its first character that is not
      whitespace up to the cut of trailing whitespace. */
  function Strip(s: string): (r: string)
    ensures |r| <= |s|
  {
    var i := LeadingWhitespace(s);
    s[i..i + TrailingCut(s[i..])]
  }

  /** What `strip` returns has no whitespace at either end. */
  lemma StripIsStripped(s: string)
    ensures IsStripped(Strip(s))
  {
    var i := LeadingWhitespace(s);
    var k := TrailingCut(s[i..]);
    if k > 0 {
      assert Strip(s)[0] == s[i];
      assert Strip(s)[k - 1] == s[i..][k - 1];
    }
  }

  /** What `strip` drops, before and after the slice it keeps, is whitespace. */
  lemma StripDropsWhitespace(s: string)
    ensures var i := LeadingWhitespace(s);
            var j := i + TrailingCut(s[i..]);
            i <= j <= |s| && AllWhitespace(s[..i]) && AllWhitespace(s[j..])
  {
    var i := LeadingWhitespace(s);
    var k := TrailingCut(s[i..]);
    LeadingWhitespaceIsWhitespace(s);
    assert AllWhitespace(s[i + k..]) by {
      TrailingCutIsWhitespace(s[i..]);
      SliceOfSuffix(s, i, k);
    }
  }

  /** Cutting `s[i..]` at `k` and at its end, in terms of `s`. */
  lemma SliceOfSuffix(s: string, i: nat, k: nat)
    requires i <= |s| && k <= |s| - i
    ensures s[i..][..k] == s[i..i + k] && s[i..][k..] == s[i + k..]
  {
  }

  /** A string with no whitespace at either end is its own strip. */
  lemma StripOfStripped(s: string)
    requires IsStripped(s)
    ensures Strip(s) == s
  {
    if s != [] {
      assert LeadingWhitespace(s) == 0;
      assert TrailingCut(s) == |s|;
    }
  }

  // ---------------------------------------------------------------------------
  // os.path.join / os.path.basename (POSIX)
  // ---------------------------------------------------------------------------

  /** `posixpath.join(dir, name)`: an absolute `name` replaces `dir`; otherwise
      a separator is inserted unless `dir` is empty or already ends in one. */
  function PathJoin(dir: string, name: string): string {
    if |name| > 0 && name[0] == '/' then name
    else if dir == [] || dir[|dir| - 1] == '/' then dir + name
    else dir + "/" + name
  }

  /** `posixpath.basename(p)`: what follows the last separator. */
  function Basename(p: string): (r: string)
    ensures '/' !in r
  {
    if p == [] || p[|p| - 1] == '/' then []
    else Basename(p[..|p| - 1]) + [p[|p| - 1]]
  }

  /** A file name without separators, joined to a directory, names a file
      directly inside that directory: the basename is the name, and what
      precedes it is the directory, with at most one separator added. */
  lemma {:induction false} JoinStaysInDirectory(dir: string, name: string)
    requires '/' !in name
    ensures Basename(PathJoin(dir, name)) == name
    ensures var p := PathJoin(dir, name);
            p[..|p| - |name|] == dir || p[..|p| - |name|] == dir + "/"
  {
    var p := PathJoin(dir, name);
    var head := p[..|p| - |name|];
    assert p == head + name;
    assert head == [] || head[|head| - 1] == '/';
    BasenameAfterSeparator(head, name);
  }

  /** `p` names the file `name` directly inside the directory `dir`: `name`
      follows `dir`, with at most one separator added between them, and is
      what `basename` gives back. */
  predicate NamesFileIn(p: string, dir: string, name: string) {
    Basename(p) == name && (p == dir + name || p == dir + "/" + name)
  }

  /** Joining a relative, separator-free name to a directory names that file
      inside the directory. */
  lemma JoinNamesFileIn(dir: string, name: string)
    requires '/' !in name
    ensures NamesFileIn(PathJoin(dir, name), dir, name)
  {
    JoinStaysInDirectory(dir, name);
  }

  lemma {:induction false} BasenameAfterSeparator(head: string, name: string)
    requires '/' !in name
    requires head == [] || head[|head| - 1] == '/'
    ensures Basename(head + name) == name
  {
    if name == [] {
      assert head + name == head;
    } else {
      var init, last := name[..|name| - 1], name[|name| - 1];
      var q := head + init;
      assert head + name == q + [last] by {
        assert name == init + [last];
      }
      assert '/' !in init by {
        forall k | 0 <= k < |init| ensures init[k] != '/' {
          assert init[k] == name[k];
        }
      }
      BasenameAfterSeparator(head, init);
      assert Basename(q + [last]) == Basename(q) + [last] by {
        assert last == name[|name| - 1] && last != '/';
        assert (q + [last])[..|q|] == q;
      }
    }
  }
}
