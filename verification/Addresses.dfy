/** IP addresses of sandboxes: formatting an index, reading it back, and finding the least free one. */
module Addresses {

  import opened Options

  const SUBNET := "172.16.0."
  const FIRST_INDEX: nat := 2
  const LAST_INDEX: nat := 254

  // ---------------------------------------------------------------- decimal numbers

  predicate IsDigit(c: char) { '0' <= c <= '9' }

  function Digits(n: nat): (s: string)
    ensures s != [] && forall i | 0 <= i < |s| :: IsDigit(s[i])
  {
    var d := '0' + (n % 10) as char;
    if n < 10 then [d] else Digits(n / 10) + [d]
  }

  /** The number written by the leading digits; nothing when there are none. */
  function ReadDigits(s: string): Option<nat> {
    if s == [] || !IsDigit(s[0]) then None else Some(Accumulate(s, 0))
  }

  function Accumulate(s: string, acc: nat): nat {
    if s == [] || !IsDigit(s[0]) then acc
    else Accumulate(s[1..], 10 * acc + (s[0] - '0') as nat)
  }

  lemma {:induction false} AccumulateSnoc(s: string, c: char, acc: nat)
    requires IsDigit(c) && forall i | 0 <= i < |s| :: IsDigit(s[i])
    ensures Accumulate(s + [c], acc) == 10 * Accumulate(s, acc) + (c - '0') as nat
  {
    if s != [] {
      assert (s + [c])[1..] == s[1..] + [c];
      AccumulateSnoc(s[1..], c, 10 * acc + (s[0] - '0') as nat);
    }
  }

  lemma {:induction false} DigitsReadBack(n: nat)
    ensures ReadDigits(Digits(n)) == Some(n)
  {
    var c := '0' + (n % 10) as char;
    assert IsDigit(c) && (c - '0') as nat == n % 10;
    if n < 10 {
      AccumulateSnoc([], c, 0);
      assert [] + [c] == [c];
    } else {
      DigitsReadBack(n / 10);
      AccumulateSnoc(Digits(n / 10), c, 0);
    }
  }

  // ---------------------------------------------------------------- addresses

  function GenerateIPFromIndex(index: int): Option<string> {
    if index <= 0 || index > LAST_INDEX then None else Some(SUBNET + Digits(index))
  }

  /** The index of an address of the subnet. */
  function IndexOfIP(ip: string): Option<nat> {
    if SUBNET <= ip then ReadDigits(ip[|SUBNET|..]) else None
  }

  /** Reading back what was formatted: every index the orchestrator can hand out survives the registry. */
  lemma AddressReadBack(index: nat)
    ensures GenerateIPFromIndex(index).Some? <==> 0 < index <= LAST_INDEX
    ensures GenerateIPFromIndex(index).Some? ==> IndexOfIP(GenerateIPFromIndex(index).value) == Some(index)
  {
    DigitsReadBack(index);
    assert (SUBNET + Digits(index))[|SUBNET|..] == Digits(index);
  }

  lemma DigitsWritten(i: nat)
    requires i < 1000
    ensures i < 10 ==> Digits(i) == ['0' + i as char]
    ensures 10 <= i < 100 ==> Digits(i) == ['0' + (i / 10) as char, '0' + (i % 10) as char]
    ensures 100 <= i ==> Digits(i) == ['0' + (i / 100) as char, '0' + (i / 10 % 10) as char, '0' + (i % 10) as char]
  {
    if i >= 10 {
      DigitsWritten(i / 10);
      assert i / 10 / 10 == i / 100;
      assert Digits(i) == Digits(i / 10) + ['0' + (i % 10) as char];
    }
  }

  /** The address of an index, written out: the subnet and the decimal digits of the index. */
  lemma AddressIs(i: nat)
    requires 1 <= i <= 254
    ensures GenerateIPFromIndex(i) == Some(
              "172.16.0."
              + if i < 10 then ['0' + i as char]
                else if i < 100 then ['0' + (i / 10) as char, '0' + (i % 10) as char]
                else ['0' + (i / 100) as char, '0' + (i / 10 % 10) as char, '0' + (i % 10) as char])
    ensures var ip := GenerateIPFromIndex(i).value; |ip| > 9 && ip[..9] == "172.16.0."
  {
    DigitsWritten(i);
    hide Digits;
    assert |SUBNET| == 9;
    assert (SUBNET + Digits(i))[..9] == "172.16.0.";
  }

  // ---------------------------------------------------------------- allocation

  /** The least index from `i` on that is not used. */
  function LeastFree(used: set<nat>, i: nat): Option<nat>
    decreases LAST_INDEX + 1 - i
  {
    if i > LAST_INDEX then None else if i !in used then Some(i) else LeastFree(used, i + 1)
  }

  /** The least free index, or none exactly when all are used. */
  lemma {:induction false} LeastFreeIs(used: set<nat>, i: nat)
    ensures var r := LeastFree(used, i);
            match r
            case Some(k) => i <= k <= LAST_INDEX && k !in used && forall j | i <= j < k :: j in used
            case None => forall j | i <= j <= LAST_INDEX :: j in used
    decreases LAST_INDEX + 1 - i
  {
    if i <= LAST_INDEX && i in used {
      LeastFreeIs(used, i + 1);
    }
  }

  /** The indices that a set of addresses takes. */
  function UsedBy(ips: set<string>): set<nat> {
    set ip | ip in ips && IndexOfIP(ip).Some? :: IndexOfIP(ip).value
  }

  /** Scan the registered addresses, in any order, then try the indices in ascending order. */
  method FindFreeIPIndex(ips: set<string>) returns (r: Option<nat>)
    ensures r == LeastFree(UsedBy(ips), FIRST_INDEX)
    ensures match r
            case Some(k) => 2 <= k <= 254 && k !in UsedBy(ips) && forall j | 2 <= j < k :: j in UsedBy(ips)
            case None => forall j | 2 <= j <= 254 :: j in UsedBy(ips)
  {
    LeastFreeIs(UsedBy(ips), FIRST_INDEX);
    var used: set<nat> := {};
    var rest := ips;
    while rest != {}
      invariant rest <= ips && used == UsedBy(ips - rest)
      decreases rest
    {
      var ip :| ip in rest;
      assert ips - (rest - {ip}) == (ips - rest) + {ip};
      rest := rest - {ip};
      if ip != "" {
        match IndexOfIP(ip) {
          case Some(idx) => used := used + {idx};
          case None =>
        }
      }
    }
    assert ips - {} == ips;
    for i := FIRST_INDEX to LAST_INDEX + 1
      invariant LeastFree(used, i) == LeastFree(used, FIRST_INDEX)
    {
      if i !in used {
        return Some(i);
      }
    }
    return None;
  }
}
