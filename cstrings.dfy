/**
 * The C library behaviour the daemon's text protocol rests on:
 * `strncpy` into a fixed buffer (truncation), `strtok_r` with the
 * delimiter ":" (which skips empty tokens), `strchr`, `atoi` and the
 * decimal rendering of `%d` / `%hu`.
 */
module CStrings {

  /** Longest address a `char[32]` buffer holds after `strncpy(dst, src, 31)`. */
  const IP_MAX_LEN: nat := 31

  /** `strncpy(dst, s, n); dst[n] = '\0'`: the first `n` characters of `s`. */
  function Truncate(s: string, n: nat): (r: string)
    ensures |r| <= n && r <= s
    ensures |s| <= n ==> r == s
    ensures |s| > n ==> |r| == n
  {
    if |s| <= n then s else s[..n]
  }

  /** Appending to a bounded buffer a piece at a time (`strncat`) equals bounding the whole. */
  lemma TruncateAppend(a: string, b: string, n: nat)
    ensures Truncate(Truncate(a, n) + b, n) == Truncate(a + b, n)
  {
    if |a| > n {
      assert (a[..n] + b)[..n] == a[..n] == (a + b)[..n];
    }
  }

  /** A fixed prefix that fits survives truncation whole. */
  lemma TruncateAfterPrefix(h: string, t: string, n: nat)
    requires |h| <= n
    ensures Truncate(h + t, n) == h + Truncate(t, n - |h|)
  {
    if |h + t| > n {
      assert (h + t)[..n] == h + t[..n - |h|];
    }
  }

  /** Copying into a smaller buffer after a larger one is copying into the smaller one. */
  lemma TruncateTwice(s: string, m: nat, n: nat)
    requires n <= m
    ensures Truncate(Truncate(s, m), n) == Truncate(s, n)
  {
  }

  /** `strchr(s, c)` as an index: the first position of `c`, or `|s|` when absent. */
  function IndexOf(s: string, c: char): (k: nat)
    ensures k <= |s|
    ensures k < |s| ==> s[k] == c
    ensures forall i :: 0 <= i < k ==> s[i] != c
  {
    if s == [] then 0 else if s[0] == c then 0 else 1 + IndexOf(s[1..], c)
  }

  /** A C string ends at its first NUL: the characters `strlen`, `strncpy` and `strtok_r` see
      of a buffer. */
  function CString(s: string): (r: string)
    ensures r <= s && '\0' !in r
    ensures '\0' !in s ==> r == s
    ensures |r| < |s| ==> s[|r|] == '\0'
  {
    s[..IndexOf(s, '\0')]
  }

  /** Cutting at the NUL and bounding the copy commute. */
  lemma CStringTruncate(s: string, n: nat)
    ensures CString(Truncate(s, n)) == Truncate(CString(s), n)
  {
    var t := Truncate(s, n);
    var k, m := IndexOf(s, '\0'), IndexOf(t, '\0');
    forall i | 0 <= i < |t| ensures t[i] == s[i] {
    }
    if m < |t| {
      assert t[m] == s[m];
    }
    if k < |t| {
      assert t[k] == '\0';
    }
  }

  /** A NUL-free prefix is read whole. */
  lemma CStringAfter(h: string, t: string)
    requires '\0' !in h
    ensures CString(h + t) == h + CString(t)
  {
    var s := h + t;
    var n := IndexOf(t, '\0');
    forall i | 0 <= i < |h| ensures s[i] != '\0' {
      assert s[i] == h[i];
    }
    forall i | |h| <= i < |h| + n ensures s[i] != '\0' {
      assert s[i] == t[i - |h|];
    }
    if n < |t| {
      assert s[|h| + n] == t[n];
    }
    assert IndexOf(s, '\0') == |h| + n;
    assert s[..|h| + n] == h + t[..n];
  }

  /** The tokens successive `strtok_r(..., ":", ...)` calls return: the maximal
      non-empty runs of non-':' characters, in order. */
  function Tokens(s: string): (ts: seq<string>)
    ensures forall t :: t in ts ==> t != [] && ':' !in t
    ensures '\0' !in s ==> forall t :: t in ts ==> '\0' !in t
    decreases |s|
  {
    if s == [] then []
    else if s[0] == ':' then Tokens(s[1..])
    else
      var n := IndexOf(s, ':');
      [s[..n]] + Tokens(s[n..])
  }

  /** A string that ends in the delimiter tokenises independently of what follows it. */
  lemma {:induction false} TokensAppend(a: string, b: string)
    requires a == [] || a[|a| - 1] == ':'
    ensures Tokens(a + b) == Tokens(a) + Tokens(b)
    decreases |a|
  {
    if a == [] {
      assert a + b == b;
    } else if a[0] == ':' {
      assert (a + b)[1..] == a[1..] + b;
      TokensAppend(a[1..], b);
    } else {
      var n := IndexOf(a, ':');
      assert n < |a|;
      assert IndexOf(a + b, ':') == n by {
        var m := IndexOf(a + b, ':');
        assert (a + b)[n] == ':';
        assert forall i :: 0 <= i < n ==> (a + b)[i] == a[i];
      }
      assert (a + b)[..n] == a[..n];
      assert (a + b)[n..] == a[n..] + b;
      TokensAppend(a[n..], b);
    }
  }

  /** A single token followed by its delimiter. */
  lemma TokenColon(t: string)
    requires t != [] && ':' !in t
    ensures Tokens(t + ":") == [t]
  {
    var s := t + ":";
    assert s[0] != ':';
    assert IndexOf(s, ':') == |t| by {
      assert s[|t|] == ':';
      assert forall i :: 0 <= i < |t| ==> s[i] == t[i];
    }
    assert s[..|t|] == t;
    assert s[|t|..] == ":";
    assert Tokens(":") == Tokens([]);
  }

  /** A token that ends the string. */
  lemma TokenLast(t: string)
    requires t != [] && ':' !in t
    ensures Tokens(t) == [t]
  {
    assert IndexOf(t, ':') == |t|;
    assert t[..|t|] == t;
    assert t[|t|..] == [];
  }

  predicate IsDigit(c: char) { '0' <= c <= '9' }

  /** `isspace` in the C locale. */
  predicate IsSpace(c: char)
  {
    c == ' ' || c == '\t' || c == '\n' || c == '\r' || c as int == 11 || c as int == 12
  }

  function DigitValue(c: char): nat
  {
    if IsDigit(c) then c as int - '0' as int else 0
  }

  function DigitChar(d: nat): (c: char)
    requires d < 10
    ensures IsDigit(c) && DigitValue(c) == d
  {
    ('0' as int + d) as char
  }

  function SkipSpaces(s: string): string
  {
    if s != [] && IsSpace(s[0]) then SkipSpaces(s[1..]) else s
  }

  /** The longest prefix of decimal digits. */
  function DigitRun(s: string): (r: string)
    ensures r <= s && forall i :: 0 <= i < |r| ==> IsDigit(r[i])
  {
    if s != [] && IsDigit(s[0]) then [s[0]] + DigitRun(s[1..]) else []
  }

  /** The number a string of decimal digits denotes (most significant first). */
  function DecValue(ds: string): nat
  {
    if ds == [] then 0 else 10 * DecValue(ds[..|ds| - 1]) + DigitValue(ds[|ds| - 1])
  }

  /** C's `atoi`: skip white space, an optional sign, then the decimal digits that
      follow; a string that does not start with a number gives 0. */
  function Atoi(s: string): (r: int)
    ensures r < 0 ==> SkipSpaces(s) != [] && SkipSpaces(s)[0] == '-'
    ensures SkipSpaces(s) == [] || !(IsDigit(SkipSpaces(s)[0]) || SkipSpaces(s)[0] == '-' || SkipSpaces(s)[0] == '+') ==> r == 0
  {
    var t := SkipSpaces(s);
    if t != [] && t[0] == '-' then 0 - DecValue(DigitRun(t[1..])) as int
    else if t != [] && t[0] == '+' then DecValue(DigitRun(t[1..]))
    else DecValue(DigitRun(t))
  }

  /** Decimal digits of a natural number, without leading zeros (`%u`). */
  function NatToDec(n: nat): (ds: string)
    ensures ds != [] && forall i :: 0 <= i < |ds| ==> IsDigit(ds[i])
  {
    if n < 10 then [DigitChar(n)] else NatToDec(n / 10) + [DigitChar(n % 10)]
  }

  /** `printf("%d", n)`. */
  function Itoa(n: int): (r: string)
    ensures r != [] && (r[0] == '-' <==> n < 0)
    ensures forall i :: 0 <= i < |r| ==> IsDigit(r[i]) || (i == 0 && n < 0)
  {
    if n < 0 then "-" + NatToDec(-n) else NatToDec(n)
  }

  function Pow10(k: nat): nat
  {
    if k == 0 then 1 else 10 * Pow10(k - 1)
  }

  /** A number below 10^k prints in at most k digits. */
  lemma {:induction false} NatToDecLength(n: nat, k: nat)
    requires 1 <= k && n < Pow10(k)
    ensures |NatToDec(n)| <= k
  {
    if n >= 10 {
      assert k >= 2;
      NatToDecLength(n / 10, k - 1);
    }
  }

  lemma {:induction false} DecValueOfNatToDec(n: nat)
    ensures DecValue(NatToDec(n)) == n
  {
    if n >= 10 {
      var ds := NatToDec(n);
      assert ds[..|ds| - 1] == NatToDec(n / 10);
      DecValueOfNatToDec(n / 10);
    }
  }

  lemma {:induction false} DigitRunOfDigits(ds: string)
    requires forall i :: 0 <= i < |ds| ==> IsDigit(ds[i])
    ensures DigitRun(ds) == ds
  {
    if ds != [] {
      DigitRunOfDigits(ds[1..]);
      assert ds == [ds[0]] + ds[1..];
    }
  }

  /** `atoi` reads back what `%d` printed. */
  lemma AtoiItoa(n: int)
    ensures Atoi(Itoa(n)) == n
  {
    var s := Itoa(n);
    assert SkipSpaces(s) == s;
    if n < 0 {
      assert s[1..] == NatToDec(-n);
      DigitRunOfDigits(NatToDec(-n));
      DecValueOfNatToDec(-n);
    } else {
      DigitRunOfDigits(NatToDec(n));
      DecValueOfNatToDec(n);
    }
  }

  /** The rendering of a number never holds a protocol delimiter. */
  lemma ItoaHasNoDelimiters(n: int)
    ensures forall c :: c in Itoa(n) ==> c == '-' || IsDigit(c)
    ensures Itoa(n) != []
  {
  }

  /** A token that does not begin with a number reads as 0: `atoi` never rejects. */
  lemma AtoiNonNumeric(s: string)
    requires s != [] && !IsSpace(s[0]) && !IsDigit(s[0]) && s[0] != '-' && s[0] != '+'
    ensures Atoi(s) == 0
  {
  }
}
