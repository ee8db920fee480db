/** The string functions of Go's standard library that the program relies on. */
module Text {
  import opened Wrappers

  /** unicode.IsSpace */
  predicate IsSpace(c: char) {
    || '\t' <= c <= '\r' || c == ' ' || c == '\U{0085}' || c == '\U{00A0}' || c == '\U{1680}'
    || '\U{2000}' <= c <= '\U{200A}' || c == '\U{2028}' || c == '\U{2029}' || c == '\U{202F}'
    || c == '\U{205F}' || c == '\U{3000}'
  }

  function TrimLeft(s: string): string {
    if s != "" && IsSpace(s[0]) then TrimLeft(s[1..]) else s
  }

  function TrimRight(s: string): string {
    if s != "" && IsSpace(s[|s| - 1]) then TrimRight(s[..|s| - 1]) else s
  }

  /** strings.TrimSpace */
  function TrimSpace(s: string): string {
    TrimRight(TrimLeft(s))
  }

  /** A text that trimming leaves alone. */
  predicate Trimmed(s: string) {
    s == "" || (!IsSpace(s[0]) && !IsSpace(s[|s| - 1]))
  }

  ghost predicate AllSpace(s: string) {
    forall k :: 0 <= k < |s| ==> IsSpace(s[k])
  }

  lemma {:induction false} TrimLeftIs(s: string) returns (cut: string)
    ensures s == cut + TrimLeft(s) && AllSpace(cut)
    ensures TrimLeft(s) == "" || !IsSpace(TrimLeft(s)[0])
  {
    if s == "" || !IsSpace(s[0]) {
      cut := "";
    } else {
      var more := TrimLeftIs(s[1..]);
      cut := [s[0]] + more;
      assert s == [s[0]] + s[1..];
    }
  }

  lemma {:induction false} TrimRightIs(s: string) returns (cut: string)
    ensures s == TrimRight(s) + cut && AllSpace(cut)
    ensures TrimRight(s) == "" || !IsSpace(TrimRight(s)[|TrimRight(s)| - 1])
  {
    if s == "" || !IsSpace(s[|s| - 1]) {
      cut := "";
    } else {
      var more := TrimRightIs(s[..|s| - 1]);
      cut := more + [s[|s| - 1]];
      assert s == s[..|s| - 1] + [s[|s| - 1]];
    }
  }

  /** Trimming removes white space, all of it and nothing else, at both ends. */
  lemma TrimSpaceIs(s: string) returns (left: string, right: string)
    ensures s == left + TrimSpace(s) + right && AllSpace(left) && AllSpace(right)
    ensures Trimmed(TrimSpace(s))
    ensures Trimmed(s) ==> TrimSpace(s) == s
  {
    left := TrimLeftIs(s);
    right := TrimRightIs(TrimLeft(s));
    if Trimmed(s) {
      assert TrimLeft(s) == s;
    }
  }

  lemma {:induction false} TrimLeftInside(a: string, rest: string)
    requires AllSpace(a) && (rest == "" || !IsSpace(rest[0]))
    ensures TrimLeft(a + rest) == rest
  {
    if a == "" {
      assert a + rest == rest;
    } else {
      assert (a + rest)[1..] == a[1..] + rest;
      TrimLeftInside(a[1..], rest);
    }
  }

  lemma {:induction false} TrimRightInside(s: string, b: string)
    requires AllSpace(b) && (s == "" || !IsSpace(s[|s| - 1]))
    ensures TrimRight(s + b) == s
  {
    if b == "" {
      assert s + b == s;
    } else {
      assert (s + b)[..|s + b| - 1] == s + b[..|b| - 1];
      TrimRightInside(s, b[..|b| - 1]);
    }
  }

  /** Trimming finds a trimmed text inside white space. */
  lemma TrimSpaceInside(a: string, s: string, b: string)
    requires AllSpace(a) && AllSpace(b) && Trimmed(s)
    ensures TrimSpace(a + s + b) == s
  {
    hide TrimLeft, TrimRight;
    if s == "" {
      var all := a + b;
      assert a + s + b == all + "";
      TrimLeftInside(all, "");
      TrimRightInside("", "");
      assert "" + "" == "";
    } else {
      assert a + s + b == a + (s + b);
      TrimLeftInside(a, s + b);
      TrimRightInside(s, b);
    }
  }

  /** The characters that trimming removes, one by one. */
  lemma SpaceExactly(c: char)
    ensures TrimSpace([c]) == "" <==>
            || c in "\t\n\U{000B}\U{000C}\r \U{0085}\U{00A0}\U{1680}"
            || c in "\U{2000}\U{2001}\U{2002}\U{2003}\U{2004}\U{2005}\U{2006}\U{2007}\U{2008}\U{2009}\U{200A}"
            || c in "\U{2028}\U{2029}\U{202F}\U{205F}\U{3000}"
  {
    var left, right := TrimSpaceIs([c]);
    if IsSpace(c) {
      TrimSpaceInside([c], "", "");
      assert [c] + "" + "" == [c];
    }
  }

  predicate HasPrefix(s: string, prefix: string) {
    prefix <= s
  }

  /** strings.Cut around the first `sep`. */
  function Cut(s: string, sep: char): (r: Option<(string, string)>)
    ensures r.None? <==> sep !in s
    ensures r.Some? ==> s == r.value.0 + [sep] + r.value.1 && sep !in r.value.0
  {
    if s == "" then None
    else if s[0] == sep then Some(("", s[1..]))
    else
      match Cut(s[1..], sep)
      case None => None
      case Some((before, after)) => Some(([s[0]] + before, after))
  }

  lemma {:induction false} CutAtFirst(before: string, sep: char, after: string)
    requires sep !in before
    ensures Cut(before + [sep] + after, sep) == Some((before, after))
  {
    var s := before + [sep] + after;
    if before == "" {
      assert s[1..] == after;
    } else {
      assert before == [before[0]] + before[1..];
      assert s[1..] == before[1..] + [sep] + after;
      CutAtFirst(before[1..], sep, after);
    }
  }

  // ----- Decimal printing -----

  function Digit(d: nat): char
    requires d < 10
  {
    '0' + d as char
  }

  /** strconv.Itoa for a nonnegative number */
  function Decimal(n: nat): (s: string)
    ensures s != ""
  {
    if n < 10 then [Digit(n)] else Decimal(n / 10) + [Digit(n % 10)]
  }

  /** strconv.FormatInt(x, 10) */
  function DecimalInt(x: int): string {
    if x < 0 then "-" + Decimal(-x) else Decimal(x)
  }

  /** strconv.ParseInt on a text of decimal digits, with or without a minus sign. */
  function ReadInt(s: string): int {
    if s != "" && s[0] == '-' then -ReadNat(s[1..]) else ReadNat(s)
  }

  function ReadNat(s: string): int {
    if s == "" then 0 else 10 * ReadNat(s[..|s| - 1]) + (s[|s| - 1] as int - 48)
  }

  /** A printed number is digits only, without a leading zero, and reads back. */
  lemma {:induction false} DecimalReadsBack(n: nat)
    ensures ReadNat(Decimal(n)) == n
    ensures forall k :: 0 <= k < |Decimal(n)| ==> Decimal(n)[k] in "0123456789"
    ensures Decimal(n)[0] == '0' ==> n == 0
  {
    assert Digit(n % 10) as int == 48 + n % 10;
    assert forall d: nat :: d < 10 ==> Digit(d) == "0123456789"[d];
    if n < 10 {
      assert Decimal(n)[..0] == "";
    } else {
      DecimalReadsBack(n / 10);
      assert Decimal(n)[..|Decimal(n)| - 1] == Decimal(n / 10);
    }
  }

  /** Every 64-bit number that is printed into a request reads back as itself. */
  lemma IntReadsBack(x: int)
    ensures ReadInt(DecimalInt(x)) == x
    ensures DecimalInt(x)[0] == '-' <==> x < 0
  {
    hide Decimal, ReadNat;
    DecimalReadsBack(if x < 0 then -x else x);
    if x < 0 { assert DecimalInt(x)[1..] == Decimal(-x); }
  }

  /** Different numbers print differently. */
  lemma {:induction false} DecimalInjective(m: nat, n: nat)
    requires Decimal(m) == Decimal(n)
    ensures m == n
    decreases m
  {
    var s := Decimal(m);
    assert s[|s| - 1] == Digit(m % 10) == Digit(n % 10);
    if m < 10 || n < 10 {
    } else {
      assert Decimal(m / 10) == s[..|s| - 1] == Decimal(n / 10);
      DecimalInjective(m / 10, n / 10);
    }
  }
}
