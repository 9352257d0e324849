/** The length-prefixed join whose hash is a canonical event id, and a decoder for it. */
module StableJoin {
  import opened Collections

  // ---------- Decimal numerals ----------

  function Digit(n: nat): (c: char)
    requires n < 10
    ensures IsDigit(c) && DigitValue(c) == n
  {
    ['0', '1', '2', '3', '4', '5', '6', '7', '8', '9'][n]
  }

  predicate IsDigit(c: char) {
    '0' <= c <= '9'
  }

  function DigitValue(c: char): nat
    requires IsDigit(c)
  {
    c as int - '0' as int
  }

  function Numeral(n: nat): string {
    if n < 10 then [Digit(n)] else Numeral(n / 10) + [Digit(n % 10)]
  }

  ghost predicate AllDigits(s: string) {
    forall i :: 0 <= i < |s| ==> IsDigit(s[i])
  }

  lemma {:induction false} NumeralDigits(n: nat)
    ensures AllDigits(Numeral(n)) && Numeral(n) != []
  {
    if n >= 10 {
      NumeralDigits(n / 10);
    }
  }

  // ---------- Encoder ----------

  /** One part: its length, a colon, the part itself. */
  function Prefixed(part: string): string {
    Numeral(|part|) + ":" + part
  }

  function StableJoin(parts: seq<string>): string {
    Join(seq(|parts|, i requires 0 <= i < |parts| => Prefixed(parts[i])), '|')
  }

  // ---------- Decoder ----------

  /** Reads digits up to the colon; returns the number and what follows the colon. */
  function ReadLength(s: string, acc: nat): Option<(nat, string)> {
    if s == [] then None
    else if s[0] == ':' then Some((acc, s[1..]))
    else if IsDigit(s[0]) then ReadLength(s[1..], 10 * acc + DigitValue(s[0]))
    else None
  }

  lemma {:induction false} ReadLengthShrinks(s: string, acc: nat)
    ensures ReadLength(s, acc).Some? ==> |ReadLength(s, acc).value.1| < |s|
  {
    if s != [] && s[0] != ':' && IsDigit(s[0]) {
      ReadLengthShrinks(s[1..], 10 * acc + DigitValue(s[0]));
    }
  }

  function DecodeParts(s: string): Option<seq<string>>
    decreases |s|
  {
    ReadLengthShrinks(s, 0);
    match ReadLength(s, 0)
    case None => None
    case Some((n, rest)) =>
      if n > |rest| then None
      else if n == |rest| then Some([rest])
      else if rest[n] != '|' then None
      else
        match DecodeParts(rest[n + 1..])
        case None => None
        case Some(tail) => Some([rest[..n]] + tail)
  }

  function Decode(s: string): Option<seq<string>> {
    if s == [] then Some([]) else DecodeParts(s)
  }

  // ---------- Round trip ----------

  function Value(digits: string, acc: nat): nat
    requires AllDigits(digits)
  {
    if digits == [] then acc else Value(digits[1..], 10 * acc + DigitValue(digits[0]))
  }

  lemma {:induction false} ValueSnoc(digits: string, c: char, acc: nat)
    requires AllDigits(digits) && IsDigit(c)
    ensures AllDigits(digits + [c])
    ensures Value(digits + [c], acc) == 10 * Value(digits, acc) + DigitValue(c)
  {
    if digits == [] {
      assert digits + [c] == [c];
    } else {
      assert (digits + [c])[1..] == digits[1..] + [c];
      ValueSnoc(digits[1..], c, 10 * acc + DigitValue(digits[0]));
    }
  }

  lemma {:induction false} NumeralValue(n: nat)
    ensures AllDigits(Numeral(n)) && Value(Numeral(n), 0) == n
  {
    NumeralDigits(n);
    if n >= 10 {
      NumeralValue(n / 10);
      ValueSnoc(Numeral(n / 10), Digit(n % 10), 0);
    } else {
      assert Numeral(n)[1..] == [];
    }
  }

  lemma {:induction false} ReadLengthOfDigits(digits: string, rest: string, acc: nat)
    requires AllDigits(digits)
    ensures ReadLength(digits + ":" + rest, acc) == Some((Value(digits, acc), rest))
  {
    var s := digits + ":" + rest;
    if digits == [] {
      assert s[1..] == rest;
    } else {
      assert s[1..] == digits[1..] + ":" + rest;
      ReadLengthOfDigits(digits[1..], rest, 10 * acc + DigitValue(digits[0]));
    }
  }

  lemma StableJoinCons(parts: seq<string>)
    requires parts != []
    ensures StableJoin(parts) ==
            Prefixed(parts[0]) + (if |parts| == 1 then "" else "|" + StableJoin(parts[1..]))
  {
    var items := seq(|parts|, i requires 0 <= i < |parts| => Prefixed(parts[i]));
    assert items[1..] == seq(|parts[1..]|, i requires 0 <= i < |parts[1..]| => Prefixed(parts[1..][i]));
  }

  lemma {:induction false} DecodePartsRoundTrip(parts: seq<string>)
    requires parts != []
    ensures StableJoin(parts) != []
    ensures DecodeParts(StableJoin(parts)) == Some(parts)
  {
    var n := |parts[0]|;
    var tail := if |parts| == 1 then "" else "|" + StableJoin(parts[1..]);
    var rest := parts[0] + tail;
    StableJoinCons(parts);
    NumeralValue(n);
    assert StableJoin(parts) == Numeral(n) + ":" + rest;
    ReadLengthOfDigits(Numeral(n), rest, 0);
    if |parts| == 1 {
      assert rest == parts[0] && parts == [parts[0]];
    } else {
      assert rest[..n] == parts[0] && rest[n] == '|' && rest[n + 1..] == StableJoin(parts[1..]);
      DecodePartsRoundTrip(parts[1..]);
      assert parts == [parts[0]] + parts[1..];
    }
  }

  /** Decoding undoes the join for every list of strings, whatever characters they contain. */
  lemma DecodeStableJoin(parts: seq<string>)
    ensures Decode(StableJoin(parts)) == Some(parts)
  {
    if parts != [] {
      DecodePartsRoundTrip(parts);
    }
  }

  /** Two source identities share a hash preimage only when they are the same. */
  lemma CanonicalIdPreimageInjective(version: string, table: string, pk: string, eventType: string,
                                     version': string, table': string, pk': string, eventType': string)
    requires StableJoin([version, table, pk, eventType]) == StableJoin([version', table', pk', eventType'])
    ensures version == version' && table == table' && pk == pk' && eventType == eventType'
  {
    var a, b := [version, table, pk, eventType], [version', table', pk', eventType'];
    DecodeStableJoin(a);
    DecodeStableJoin(b);
    assert a == b;
    assert a[0] == b[0] && a[1] == b[1] && a[2] == b[2] && a[3] == b[3];
  }
}
