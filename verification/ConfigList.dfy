/** Comma-separated configuration lists: printed by the Python template, read back character by character
    into a fixed array through a scratch buffer. */
module ConfigList {

  // ---------------------------------------------------------------- numbers

  function Digit(d: nat): char
    requires d < 10
  {
    "0123456789"[d]
  }

  predicate IsDigit(c: char) { '0' <= c <= '9' }

  function DigitValue(c: char): nat
    requires IsDigit(c)
  {
    c as int - '0' as int
  }

  function Digits(n: nat): string {
    if n < 10 then [Digit(n)] else Digits(n / 10) + [Digit(n % 10)]
  }

  /** %i */
  function PrintInt(n: int): string { if n < 0 then "-" + Digits(-n) else Digits(n) }

  /** The leading digits of a text, appended to acc. */
  function NumberFrom(acc: nat, t: string): nat
    decreases |t|
  {
    if |t| == 0 || !IsDigit(t[0]) then acc else NumberFrom(acc * 10 + DigitValue(t[0]), t[1..])
  }

  predicate IsSpace(c: char) { c in {' ', '\t', '\n', '\r', '\U{0B}', '\U{0C}'} }

  /** atof on a text of blanks, a sign and digits: 0 if there are no digits, and nothing behind them counts. */
  function Atof(t: string): int {
    if |t| > 0 && IsSpace(t[0]) then Atof(t[1..])
    else if |t| > 0 && t[0] == '-' then 0 - NumberFrom(0, t[1..])
    else if |t| > 0 && t[0] == '+' then NumberFrom(0, t[1..])
    else NumberFrom(0, t)
  }

  lemma {:induction false} NumberAppends(acc: nat, t: string, c: char)
    requires IsDigit(c) && forall i :: 0 <= i < |t| ==> IsDigit(t[i])
    ensures NumberFrom(acc, t + [c]) == NumberFrom(acc, t) * 10 + DigitValue(c)
    decreases |t|
  {
    if |t| == 0 {
      assert (t + [c])[1..] == "";
    } else {
      assert (t + [c])[1..] == t[1..] + [c];
      NumberAppends(acc * 10 + DigitValue(t[0]), t[1..], c);
    }
  }

  lemma {:induction false} DigitsRead(n: nat)
    ensures |Digits(n)| > 0 && forall i :: 0 <= i < |Digits(n)| ==> IsDigit(Digits(n)[i])
    ensures NumberFrom(0, Digits(n)) == n
  {
    if n >= 10 {
      DigitsRead(n / 10);
      NumberAppends(0, Digits(n / 10), Digit(n % 10));
    } else {
      assert Digits(n)[1..] == "";
    }
  }

  function Blanks(k: nat): string { seq(k, _ => ' ') }

  /** Digits are read up to the first character that is none. */
  lemma {:induction false} NumberStops(acc: nat, ds: string, rest: string)
    requires forall i :: 0 <= i < |ds| ==> IsDigit(ds[i])
    requires |rest| > 0 ==> !IsDigit(rest[0])
    ensures NumberFrom(acc, ds + rest) == NumberFrom(acc, ds)
    decreases |ds|
  {
    if |ds| == 0 {
      assert ds + rest == rest;
    } else {
      assert (ds + rest)[1..] == ds[1..] + rest;
      NumberStops(acc * 10 + DigitValue(ds[0]), ds[1..], rest);
    }
  }

  /** Digits behind a sign or none, and before anything that does not go on with a digit. */
  lemma AtofSigned(ds: string, rest: string)
    requires |ds| > 0 && forall i :: 0 <= i < |ds| ==> IsDigit(ds[i])
    requires |rest| > 0 ==> !IsDigit(rest[0])
    ensures Atof(ds + rest) == Atof("+" + (ds + rest)) == NumberFrom(0, ds)
    ensures Atof("-" + (ds + rest)) == 0 - NumberFrom(0, ds)
  {
    var t := ds + rest;
    NumberStops(0, ds, rest);
    assert t[0] == ds[0];
    BehindSign('+', t);
    BehindSign('-', t);
  }

  lemma BehindSign(sign: char, t: string)
    requires sign in {'+', '-'}
    ensures Atof([sign] + t) == if sign == '-' then 0 - NumberFrom(0, t) else NumberFrom(0, t)
  {
    assert ([sign] + t)[1..] == t;
  }

  lemma AtofPrinted(n: int)
    ensures Atof(PrintInt(n)) == n
  {
    var ds := Digits(if n < 0 then -n else n);
    DigitsRead(if n < 0 then -n else n);
    AtofSigned(ds, "");
    assert ds + "" == ds;
  }

  /** Leading white space does not count. */
  lemma {:induction false} AtofSkips(spaces: string, t: string)
    requires forall i :: 0 <= i < |spaces| ==> IsSpace(spaces[i])
    ensures Atof(spaces + t) == Atof(t)
    decreases |spaces|
  {
    if |spaces| == 0 {
      assert spaces + t == t;
    } else {
      assert (spaces + t)[1..] == spaces[1..] + t;
      AtofSkips(spaces[1..], t);
    }
  }

  lemma AtofReads(k: nat, n: int)
    ensures Atof(Blanks(k) + PrintInt(n)) == n
  {
    AtofSkips(Blanks(k), PrintInt(n));
    AtofPrinted(n);
  }

  /** Where no number begins, 0 is read. */
  lemma AtofWithoutDigits(t: string)
    requires |t| > 0 ==> !IsDigit(t[0]) && !IsSpace(t[0]) && t[0] != '-' && t[0] != '+'
    ensures Atof(t) == 0 && Atof("-" + t) == 0 && Atof("+" + t) == 0
  {
    BehindSign('-', t);
    BehindSign('+', t);
  }

  lemma NoComma(k: nat, n: int)
    ensures ',' !in Blanks(k) + PrintInt(n)
  {
    DigitsRead(if n < 0 then -n else n);
  }

  // ---------------------------------------------------------------- lists

  /** One entry: its value and the number of blanks the template puts before it. */
  datatype Item = Item(blanks: nat, value: int)
  {
    function Text(): string { Blanks(blanks) + PrintInt(value) }
  }

  function JoinTexts(ts: seq<string>): string {
    if |ts| == 0 then "" else if |ts| == 1 then ts[0] else JoinTexts(ts[..|ts| - 1]) + "," + ts[|ts| - 1]
  }

  function Texts(xs: seq<Item>): (ts: seq<string>)
    ensures |ts| == |xs|
  {
    seq(|xs|, i requires 0 <= i < |xs| => xs[i].Text())
  }

  /** The template filled in: the entries separated by commas. */
  function PrintList(xs: seq<Item>): string { JoinTexts(Texts(xs)) }

  /** The tokens completed by the commas of s. */
  function Completed(s: string): seq<string> {
    if |s| == 0 then []
    else if s[|s| - 1] == ',' then Completed(s[..|s| - 1]) + [Pending(s[..|s| - 1])]
    else Completed(s[..|s| - 1])
  }

  /** What follows the last comma of s. */
  function Pending(s: string): string {
    if |s| == 0 || s[|s| - 1] == ',' then "" else Pending(s[..|s| - 1]) + [s[|s| - 1]]
  }

  function Tokens(s: string): seq<string> { Completed(s) + [Pending(s)] }

  function Values(tokens: seq<string>): (vs: seq<int>)
    ensures |vs| == |tokens|
  {
    seq(|tokens|, i requires 0 <= i < |tokens| => Atof(tokens[i]))
  }

  const SCRATCH: nat := 60

  /** The splitter. The scratch buffer holds SCRATCH characters with the terminator; it is empty before and
      after every parameter. */
  method Split(value: string, config: array<int>, scratch0: string) returns (m: nat, scratch: string)
    requires scratch0 == "" && |Tokens(value)| <= config.Length
    requires forall t :: t in Tokens(value) ==> |t| < SCRATCH
    modifies config
    ensures scratch == ""
    ensures m == |Tokens(value)| && config[..m] == Values(Tokens(value))
    ensures config[m..] == old(config[m..])
  {
    m, scratch := 0, scratch0;
    ghost var done: seq<string> := [];
    for n := 0 to |value|
      invariant done == Completed(value[..n]) && scratch == Pending(value[..n])
      invariant m == |done| <= |Completed(value)|
      invariant forall i :: 0 <= i < m ==> config[i] == Atof(done[i])
      invariant forall i :: m <= i < config.Length ==> config[i] == old(config[i])
    {
      NextCharacter(value, n);
      CompletedGrows(value, n + 1);
      if value[n] != ',' {
        PendingFits(value, n + 1);
        assert |scratch + [value[n]]| < SCRATCH;
        scratch := scratch + [value[n]];
      } else {
        config[m] := Atof(scratch);
        m := m + 1;
        done := done + [scratch];
        scratch := "";
      }
    }
    assert value[..|value|] == value;
    config[m] := Atof(scratch);
    m := m + 1;
    scratch := "";
  }

  lemma NextCharacter(s: string, n: nat)
    requires n < |s|
    ensures Completed(s[..n + 1]) == if s[n] == ',' then Completed(s[..n]) + [Pending(s[..n])] else Completed(s[..n])
    ensures Pending(s[..n + 1]) == if s[n] == ',' then "" else Pending(s[..n]) + [s[n]]
  {
    assert s[..n + 1][..n] == s[..n];
  }

  lemma {:induction false} CompletedGrows(s: string, n: nat)
    requires n <= |s|
    ensures |Completed(s[..n])| <= |Completed(s)|
    decreases |s|
  {
    if n == |s| {
      assert s[..n] == s;
    } else {
      assert s[..|s| - 1][..n] == s[..n];
      CompletedGrows(s[..|s| - 1], n);
    }
  }

  /** The scratch buffer never holds more than a token. */
  lemma {:induction false} PendingFits(s: string, n: nat)
    requires n <= |s| && forall t :: t in Tokens(s) ==> |t| < SCRATCH
    ensures |Pending(s[..n])| < SCRATCH
    decreases |s|
  {
    assert Pending(s) == Tokens(s)[|Completed(s)|];
    if n == |s| {
      assert s[..n] == s;
    } else {
      var pre := s[..|s| - 1];
      assert pre[..n] == s[..n];
      forall t | t in Tokens(pre) ensures |t| < SCRATCH {
        if t in Completed(pre) {
          assert t in Completed(s);
          assert t in Tokens(s);
        } else {
          assert t == Pending(pre);
          if s[|s| - 1] == ',' { assert Completed(s)[|Completed(pre)|] == t; assert t in Tokens(s); }
        }
      }
      PendingFits(pre, n);
    }
  }

  lemma {:induction false} TokensAppend(s: string, t: string)
    requires ',' !in t
    ensures Completed(s + t) == Completed(s) && Pending(s + t) == Pending(s) + t
  {
    if |t| == 0 {
      assert s + t == s && Pending(s) + t == Pending(s);
    } else {
      var n := |t| - 1;
      assert (s + t)[..|s + t| - 1] == s + t[..n];
      TokensAppend(s, t[..n]);
      assert t[n] in t && t == t[..n] + [t[n]];
      assert Pending(s) + t == (Pending(s) + t[..n]) + [t[n]];
    }
  }

  /** Splitting what was joined gives the texts, one token each. */
  lemma {:induction false} TokensOfTexts(ts: seq<string>)
    requires |ts| > 0 && forall t :: t in ts ==> ',' !in t
    ensures Tokens(JoinTexts(ts)) == ts
  {
    var n := |ts| - 1;
    assert "" + ts[n] == ts[n];
    if n == 0 {
      TokensAppend("", ts[0]);
    } else {
      var pre := JoinTexts(ts[..n]);
      TokensOfTexts(ts[..n]);
      var comma := pre + ",";
      assert comma[..|pre|] == pre;
      assert Completed(comma) == ts[..n] && Pending(comma) == "";
      TokensAppend(comma, ts[n]);
    }
  }

  /** Round trip, on exactly the non-empty lists: an empty one prints as "" and comes back as [0]. */
  lemma RoundTripIff(xs: seq<Item>)
    ensures Values(Tokens(PrintList(xs))) == seq(|xs|, i requires 0 <= i < |xs| => xs[i].value) <==> xs != []
  {
    if xs != [] {
      forall t | t in Texts(xs) ensures ',' !in t {
        var i :| 0 <= i < |xs| && Texts(xs)[i] == t;
        NoComma(xs[i].blanks, xs[i].value);
      }
      TokensOfTexts(Texts(xs));
      forall i | 0 <= i < |xs| ensures Atof(Texts(xs)[i]) == xs[i].value {
        AtofReads(xs[i].blanks, xs[i].value);
      }
    } else {
      assert |Tokens("")| == 1;
    }
  }
}
