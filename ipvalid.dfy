/**
 * The two dotted-quad checks of the Android app: IpConfigDialog.isValidIp
 * and RobotControlFragment.isValidIpAddress. Both split the text on '.'
 * the way java.lang.String.split does (trailing empty parts dropped) and
 * parse every part with Integer.parseInt (an optional sign, then decimal
 * digits, within the 32-bit range).
 */
module IpValidation {
  import opened Wrappers

  // ---------------------------------------------------------------------
  // String.split("\\.")
  // ---------------------------------------------------------------------

  /** Every piece between the dots, empty ones included: one more piece than there are dots. */
  function SplitAll(s: string): (parts: seq<string>)
    ensures |parts| >= 1
    ensures forall k | 0 <= k < |parts| :: '.' !in parts[k]
  {
    if |s| == 0 then [""]
    else
      var init := SplitAll(s[..|s| - 1]);
      if s[|s| - 1] == '.' then init + [""]
      else init[..|init| - 1] + [init[|init| - 1] + [s[|s| - 1]]]
  }

  /** The parts joined back with '.' between them. */
  function Join(parts: seq<string>): string
    requires |parts| >= 1
  {
    if |parts| == 1 then parts[0] else Join(parts[..|parts| - 1]) + "." + parts[|parts| - 1]
  }

  /** Splitting at every dot loses nothing: joining the pieces gives the text back. */
  lemma {:induction false} JoinSplitAll(s: string)
    ensures Join(SplitAll(s)) == s
  {
    if |s| > 0 {
      var s', c := s[..|s| - 1], s[|s| - 1];
      assert s == s' + [c];
      var init := SplitAll(s');
      JoinSplitAll(s');
      var m := |init|;
      if c == '.' {
        var res := init + [""];
        assert res[..m] == init;
        assert Join(res) == s' + "." + "";
      } else {
        var res := init[..m - 1] + [init[m - 1] + [c]];
        if m > 1 {
          assert res[..m - 1] == init[..m - 1];
          assert Join(res) == Join(init[..m - 1]) + "." + (init[m - 1] + [c]);
          assert Join(init) == Join(init[..m - 1]) + "." + init[m - 1];
        }
      }
    }
  }

  /** Text without a dot is one piece. */
  lemma {:induction false} SplitAllNoDot(t: string)
    requires '.' !in t
    ensures SplitAll(t) == [t]
  {
    if |t| > 0 {
      SplitAllNoDot(t[..|t| - 1]);
      assert t[..|t| - 1] + [t[|t| - 1]] == t;
    }
  }

  /** A dot followed by dot-free text t adds t as one more piece. */
  lemma {:induction false} SplitAllDotThen(s: string, t: string)
    requires '.' !in t
    ensures SplitAll(s + "." + t) == SplitAll(s) + [t]
  {
    if |t| == 0 {
      assert s + "." + t == s + ".";
      assert (s + ".")[..|s|] == s;
    } else {
      var t' := t[..|t| - 1];
      assert (s + "." + t)[..|s + "." + t| - 1] == s + "." + t';
      SplitAllDotThen(s, t');
      assert t' + [t[|t| - 1]] == t;
    }
  }

  /** The parts without the empty strings at the end. */
  function DropTrailingEmpty(parts: seq<string>): (r: seq<string>)
    ensures |r| <= |parts| && r == parts[..|r|]
    ensures |r| > 0 ==> r[|r| - 1] != ""
    ensures forall k | |r| <= k < |parts| :: parts[k] == ""
  {
    if |parts| == 0 then []
    else if parts[|parts| - 1] == "" then DropTrailingEmpty(parts[..|parts| - 1])
    else parts
  }

  /** A non-empty piece, and every piece before it, survives the trimming. */
  lemma DropTrailingKeeps(parts: seq<string>, k: nat)
    requires k < |parts| && parts[k] != ""
    ensures k < |DropTrailingEmpty(parts)|
  {
  }

  /**
   * String.split("\\."): the text itself when it holds no dot (so "" gives
   * [""]); otherwise every piece between dots with the trailing empty
   * pieces removed.
   */
  function JavaSplit(s: string): (parts: seq<string>)
    ensures forall k | 0 <= k < |parts| :: '.' !in parts[k]
  {
    if '.' !in s then [s] else DropTrailingEmpty(SplitAll(s))
  }

  // ---------------------------------------------------------------------
  // Integer.parseInt
  // ---------------------------------------------------------------------

  predicate IsDigit(c: char)
  {
    '0' <= c <= '9'
  }

  predicate AllDigits(s: string)
  {
    forall k | 0 <= k < |s| :: IsDigit(s[k])
  }

  /** The value of a string of decimal digits, most significant first. */
  function DigitsValue(s: string): nat
    requires AllDigits(s)
  {
    if |s| == 0 then 0 else DigitsValue(s[..|s| - 1]) * 10 + (s[|s| - 1] as int - '0' as int)
  }

  /** An optional '+' or '-' and at least one decimal digit. */
  predicate Numeral(s: string)
  {
    (|s| > 0 && AllDigits(s)) || (|s| > 1 && (s[0] == '+' || s[0] == '-') && AllDigits(s[1..]))
  }

  const IntMin: int := -0x8000_0000
  const IntMax: int := 0x7fff_ffff

  /**
   * Integer.parseInt(s) in base 10: None where Java throws
   * NumberFormatException (no digits, a stray character, or a value
   * outside the 32-bit range).
   */
  function ParseInt(s: string): (r: Option<int>)
    ensures r.Some? ==> Numeral(s) && IntMin <= r.value <= IntMax
    ensures AllDigits(s) && |s| > 0 && DigitsValue(s) <= IntMax ==> r == Some(DigitsValue(s))
  {
    if |s| == 0 then None
    else
      var digits := if s[0] == '+' || s[0] == '-' then s[1..] else s;
      if |digits| == 0 || !AllDigits(digits) then None
      else
        var v: int := if s[0] == '-' then 0 - DigitsValue(digits) as int else DigitsValue(digits);
        if IntMin <= v <= IntMax then Some(v) else None
  }

  /** The decimal digits of n, without leading zeros. */
  function Decimal(n: nat): (s: string)
    ensures |s| > 0 && AllDigits(s) && '.' !in s
  {
    if n < 10 then ['0' + n as char] else Decimal(n / 10) + ['0' + (n % 10) as char]
  }

  lemma {:induction false} DecimalValue(n: nat)
    ensures DigitsValue(Decimal(n)) == n
  {
    if n >= 10 {
      DecimalValue(n / 10);
      assert Decimal(n)[..|Decimal(n)| - 1] == Decimal(n / 10);
    }
  }

  /** parseInt reads back what Decimal writes. */
  lemma ParseDecimal(n: nat)
    requires n <= IntMax
    ensures ParseInt(Decimal(n)) == Some(n)
  {
    DecimalValue(n);
  }

  // ---------------------------------------------------------------------
  // The two validators
  // ---------------------------------------------------------------------

  /** Every part parses to a value in [0, 255]; the loop returns false at the first part that does not. */
  predicate AllOctets(parts: seq<string>)
  {
    forall k | 0 <= k < |parts| :: ParseInt(parts[k]).Some? && 0 <= ParseInt(parts[k]).value <= 255
  }

  /**
   * IpConfigDialog.isValidIp: false for null or empty text; otherwise
   * exactly four parts after the split, each an integer in [0, 255].
   */
  function IsValidIp(ip: Option<string>): (r: bool)
    ensures r ==> ip.Some? && |JavaSplit(ip.value)| == 4 && AllOctets(JavaSplit(ip.value))
    ensures ip.None? || ip.value == "" ==> !r
  {
    if ip.None? || |ip.value| == 0 then false
    else
      var parts := JavaSplit(ip.value);
      if |parts| != 4 then false
      else AllOctets(parts)
  }

  /**
   * RobotControlFragment.isValidIpAddress: exactly four parts after the
   * split, each an integer in [0, 255] (no separate test for empty text).
   */
  function IsValidIpAddress(ip: string): (r: bool)
    ensures r <==> |JavaSplit(ip)| == 4 && AllOctets(JavaSplit(ip))
  {
    var parts := JavaSplit(ip);
    if |parts| != 4 then false
    else AllOctets(parts)
  }

  /** The two validators agree on every non-null string; "" splits to [""] and fails the four-part test. */
  lemma ValidatorsAgree(ip: string)
    ensures IsValidIpAddress(ip) == IsValidIp(Some(ip))
  {
    if ip == "" {
      assert JavaSplit(ip) == [""];
    }
  }

  /** The text of four octets written in decimal with dots between them. */
  function Dotted(a: nat, b: nat, c: nat, d: nat): string
  {
    Decimal(a) + "." + Decimal(b) + "." + Decimal(c) + "." + Decimal(d)
  }

  /** Four dot-free, non-empty pieces joined by dots split back into those four pieces. */
  lemma SplitFour(p1: string, p2: string, p3: string, p4: string)
    requires '.' !in p1 && '.' !in p2 && '.' !in p3 && '.' !in p4 && p4 != ""
    ensures JavaSplit(p1 + "." + p2 + "." + p3 + "." + p4) == [p1, p2, p3, p4]
  {
    var s2 := p1 + "." + p2;
    var s3 := s2 + "." + p3;
    var s4 := s3 + "." + p4;
    SplitAllNoDot(p1);
    SplitAllDotThen(p1, p2);
    SplitAllDotThen(s2, p3);
    SplitAllDotThen(s3, p4);
    assert s4[|p1|] == '.';
  }

  /** Every address written the usual way is accepted. */
  lemma DottedAccepted(a: nat, b: nat, c: nat, d: nat)
    requires a <= 255 && b <= 255 && c <= 255 && d <= 255
    ensures IsValidIp(Some(Dotted(a, b, c, d)))
  {
    var parts := [Decimal(a), Decimal(b), Decimal(c), Decimal(d)];
    SplitFour(parts[0], parts[1], parts[2], parts[3]);
    assert JavaSplit(Dotted(a, b, c, d)) == parts;
    ParseDecimal(a);
    ParseDecimal(b);
    ParseDecimal(c);
    ParseDecimal(d);
    assert AllOctets(parts) by {
      forall k | 0 <= k < 4
        ensures ParseInt(parts[k]).Some? && 0 <= ParseInt(parts[k]).value <= 255
      {
        assert k == 0 || k == 1 || k == 2 || k == 3;
      }
    }
  }

  /** Joining a piece list with k empty pieces added at the end adds k dots. */
  lemma {:induction false} JoinTrailingEmpty(parts: seq<string>, k: nat)
    requires |parts| >= 1
    ensures Join(parts + seq(k, _ => "")) == Join(parts) + seq(k, _ => '.')
  {
    if k > 0 {
      JoinTrailingEmpty(parts, k - 1);
      var p := parts + seq(k, _ => "");
      assert p[..|p| - 1] == parts + seq(k - 1, _ => "");
      assert seq(k - 1, _ => '.') + "." == seq(k, _ => '.');
    } else {
      assert parts + seq(k, _ => "") == parts;
    }
  }

  /**
   * What an accepted address looks like: its four parts joined by dots,
   * followed by any number of extra dots (Java's split drops the empty
   * parts they create, so "1.2.3.4." passes).
   */
  lemma AcceptedForm(ip: string) returns (k: nat)
    requires IsValidIpAddress(ip)
    ensures ip == Join(JavaSplit(ip)) + seq(k, _ => '.')
  {
    var all := SplitAll(ip);
    var parts := JavaSplit(ip);
    assert '.' in ip;
    k := |all| - |parts|;
    assert all == parts + seq(k, _ => "");
    JoinTrailingEmpty(parts, k);
    JoinSplitAll(ip);
  }

  /** One more character of text: a dot opens a new piece, anything else extends the last one. */
  function Push(parts: seq<string>, c: char): (r: seq<string>)
    requires |parts| >= 1
    ensures |r| >= 1 && r[..|r| - 1] == if c == '.' then parts else parts[..|parts| - 1]
  {
    if c == '.' then parts + [""] else parts[..|parts| - 1] + [parts[|parts| - 1] + [c]]
  }

  lemma SplitAllPush(s: string)
    requires |s| > 0
    ensures SplitAll(s) == Push(SplitAll(s[..|s| - 1]), s[|s| - 1])
  {
  }

  /** Pushing onto a concatenation only touches its second list. */
  lemma PushAppend(p: seq<string>, q: seq<string>, c: char)
    requires |q| >= 1
    ensures Push(p + q, c) == p + Push(q, c)
  {
    if c != '.' {
      assert (p + q)[..|p + q| - 1] == p + q[..|q| - 1];
    }
  }

  /** Splitting at a dot splits the piece lists apart. */
  lemma {:induction false} SplitAllConcat(a: string, b: string)
    ensures SplitAll(a + "." + b) == SplitAll(a) + SplitAll(b)
  {
    var s := a + "." + b;
    if |b| == 0 {
      assert s == a + ".";
      assert s[..|a|] == a;
      SplitAllPush(s);
    } else {
      var b', c := b[..|b| - 1], b[|b| - 1];
      assert s[..|s| - 1] == a + "." + b' && s[|s| - 1] == c;
      SplitAllConcat(a, b');
      SplitAllPush(s);
      SplitAllPush(b);
      PushAppend(SplitAll(a), SplitAll(b'), c);
    }
  }

  /** Pieces that are all empty join to nothing but dots. */
  lemma {:induction false} JoinAllEmpty(parts: seq<string>)
    requires |parts| >= 1 && forall k | 0 <= k < |parts| :: parts[k] == ""
    ensures forall i | 0 <= i < |Join(parts)| :: Join(parts)[i] == '.'
  {
    if |parts| > 1 {
      JoinAllEmpty(parts[..|parts| - 1]);
    }
  }

  /**
   * Two dots in a row leave an empty part, and the split keeps it as long
   * as some character other than a dot follows; parseInt rejects it, so
   * text such as "1..2.3" is refused.
   */
  lemma DoubleDotRejected(x: string, y: string, j: nat)
    requires j < |y| && y[j] != '.'
    ensures !IsValidIpAddress(x + ".." + y)
  {
    var ip := x + ".." + y;
    assert ip == x + "." + ("" + "." + y);
    SplitAllConcat(x, "" + "." + y);
    SplitAllConcat("", y);
    var px, py := SplitAll(x), SplitAll(y);
    assert SplitAll(ip) == px + [""] + py;
    assert ip[|x|] == '.';
    var q := NonEmptyPiece(y, j);
    KeptEmpty(px, py, q);
    assert ParseInt(JavaSplit(ip)[|px|]) == None;
  }

  /** Text with a character other than a dot has a non-empty piece. */
  lemma NonEmptyPiece(y: string, j: nat) returns (q: nat)
    requires j < |y| && y[j] != '.'
    ensures q < |SplitAll(y)| && SplitAll(y)[q] != ""
  {
    var py := SplitAll(y);
    if forall q | 0 <= q < |py| :: py[q] == "" {
      JoinSplitAll(y);
      JoinAllEmpty(py);
      assert false;
    }
    q :| 0 <= q < |py| && py[q] != "";
  }

  /** An empty piece followed later by a non-empty one is kept by the trimming. */
  lemma KeptEmpty(px: seq<string>, py: seq<string>, q: nat)
    requires q < |py| && py[q] != ""
    ensures |px| < |DropTrailingEmpty(px + [""] + py)|
    ensures DropTrailingEmpty(px + [""] + py)[|px|] == ""
  {
    var all := px + [""] + py;
    assert all[|px| + 1 + q] == py[q];
    DropTrailingKeeps(all, |px| + 1 + q);
  }

  /** A dot added at the end of an accepted address changes nothing: "1.2.3.4." passes as "1.2.3.4" does. */
  lemma TrailingDotAccepted(ip: string)
    requires IsValidIpAddress(ip)
    ensures IsValidIpAddress(ip + ".")
  {
    assert '.' in ip;
    assert (ip + ".")[..|ip|] == ip;
    assert SplitAll(ip + ".") == SplitAll(ip) + [""];
    assert JavaSplit(ip + ".") == JavaSplit(ip);
  }

  /** A sign in front of a part is accepted, as Integer.parseInt allows it. */
  lemma SignedPartAccepted(n: nat)
    requires n <= 255
    ensures ParseInt("+" + Decimal(n)) == Some(n) && ParseInt("-" + Decimal(n)) == Some(0 - n as int)
  {
    DecimalValue(n);
    assert ("+" + Decimal(n))[1..] == Decimal(n);
    assert ("-" + Decimal(n))[1..] == Decimal(n);
  }
}
