/** Transaction ids of the ledger: TX_ and at least six digits, and how their number is read back. */
module LedgerIds {
  import opened Bytes
  import opened Options
  import opened Decimals

  /** String(n).padStart(6, '0') */
  function Padded(digits: string): string {
    if |digits| < 6 then Zeros(6 - |digits|) + digits else digits
  }

  function Id(n: nat): string { "TX_" + Padded(Text(n)) }

  /** replace('TX_', ''): the first occurrence only. */
  function WithoutPrefix(s: string): string {
    var i := Find(s, "TX_", 0);
    if i == -1 then s else assert OccursAt(s, i, "TX_"); s[..i] + s[i + 3..]
  }

  function AfterSpace(s: string): string {
    if s != "" && IsSpace(s[0]) then AfterSpace(s[1..]) else s
  }

  /** The digits at the front. */
  function DigitPrefix(s: string): (r: string)
    ensures AllDigits(r) && r <= s && (|r| < |s| ==> !IsDigit(s[|r|]))
  {
    if s != "" && IsDigit(s[0]) then
      var rest := DigitPrefix(s[1..]);
      assert s == [s[0]] + s[1..];
      [s[0]] + rest
    else ""
  }

  /** parseInt(s, 10); None is NaN. */
  function ParseInt(s: string): Option<int> {
    var t := AfterSpace(s);
    var negative := t != "" && t[0] == '-';
    var u := if t != "" && t[0] in "+-" then t[1..] else t;
    var digits := DigitPrefix(u);
    var v: int := Value(digits);
    if digits == "" then None else Some(if negative then 0 - v else v)
  }

  /** The number of a transaction id, if it has one. */
  function Number(id: string): Option<int> {
    if id == "" then None else ParseInt(WithoutPrefix(id))
  }

  lemma {:induction false} AllOfDigits(s: string)
    requires AllDigits(s)
    ensures DigitPrefix(s) == s
  {
    if s != "" {
      AllOfDigits(s[1..]);
      assert s == [s[0]] + s[1..];
    }
  }

  lemma DigitsParse(s: string)
    requires AllDigits(s) && s != ""
    ensures ParseInt(s) == Some(Value(s))
  {
    assert IsDigit(s[0]);
    AllOfDigits(s);
    assert AfterSpace(s) == s;
    hide DigitPrefix, Value, AllDigits, AfterSpace;
  }

  lemma PaddedDigits(n: nat)
    ensures AllDigits(Padded(Text(n))) && Padded(Text(n)) != "" && Value(Padded(Text(n))) == n
  {
    ValueOfText(n);
    if |Text(n)| < 6 { LeadingZeros(6 - |Text(n)|, Text(n)); }
  }

  /** A made id is read back as its number. */
  lemma NumberOfId(n: nat)
    ensures Number(Id(n)) == Some(n)
  {
    PaddedDigits(n);
    var id, digits := Id(n), Padded(Text(n));
    assert id[0..3] == "TX_";
    assert OccursAt(id, 0, "TX_");
    assert id[..0] + id[3..] == digits;
    DigitsParse(digits);
  }

  /** A length is written and read back. */
  lemma NumberOfText(n: nat)
    ensures ParseInt(Text(n)) == Some(n)
  {
    ValueOfText(n);
    DigitsParse(Text(n));
  }
}
