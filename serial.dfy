/**
 The serial number the entry form is pre-filled with:
 `String(records.length + 1).padStart(3, '0')`.
 */
module Serial {
  import opened Strings

  function NextSerialNumber(count: nat): (r: string)
    ensures |r| >= 3 && AllDigits(r)
    ensures |r| == if |NatToDecimal(count + 1)| < 3 then 3 else |NatToDecimal(count + 1)|
  {
    PadStart(NatToDecimal(count + 1), 3, '0')
  }

  /** Drops every leading `'0'`. */
  function StripLeadingZeros(s: string): (r: string)
    ensures |r| <= |s| && r == s[|s| - |r|..]
    ensures forall i :: 0 <= i < |s| - |r| ==> s[i] == '0'
    ensures r == [] || r[0] != '0'
    decreases |s|
  {
    if s != [] && s[0] == '0' then StripLeadingZeros(s[1..]) else s
  }

  lemma {:induction false} StripZeroRun(k: nat, t: string)
    requires t == [] || t[0] != '0'
    ensures StripLeadingZeros(Repeat('0', k) + t) == t
    decreases k
  {
    if k > 0 {
      assert (Repeat('0', k) + t)[1..] == Repeat('0', k - 1) + t;
      StripZeroRun(k - 1, t);
    } else {
      assert Repeat('0', k) + t == t;
    }
  }

  lemma {:induction false} ZeroRunValue(k: nat)
    ensures DecimalValue(Repeat('0', k)) == 0
    decreases k
  {
    if k > 0 {
      assert Repeat('0', k)[..k - 1] == Repeat('0', k - 1);
      ZeroRunValue(k - 1);
    }
  }

  /** Leading zeros do not change the number a digit string denotes. */
  lemma {:induction false} ZeroRunPrefixValue(k: nat, t: string)
    requires AllDigits(t)
    ensures AllDigits(Repeat('0', k) + t)
    ensures DecimalValue(Repeat('0', k) + t) == DecimalValue(t)
    decreases |t|
  {
    var s := Repeat('0', k) + t;
    if t == [] {
      assert s == Repeat('0', k);
      ZeroRunValue(k);
    } else {
      var p := t[..|t| - 1];
      assert s[..|s| - 1] == Repeat('0', k) + p;
      assert s[|s| - 1] == t[|t| - 1];
      ZeroRunPrefixValue(k, p);
    }
  }

  /** The serial number is the decimal text of `count + 1` behind zero padding and nothing else. */
  lemma SerialStripsToDecimal(count: nat)
    ensures StripLeadingZeros(NextSerialNumber(count)) == NatToDecimal(count + 1)
  {
    var d := NatToDecimal(count + 1);
    if |d| < 3 {
      StripZeroRun(3 - |d|, d);
    } else {
      StripZeroRun(0, d);
      assert Repeat('0', 0) + d == d;
    }
  }

  /** Read as a number, the serial number is `count + 1`. */
  lemma SerialValue(count: nat)
    ensures DecimalValue(NextSerialNumber(count)) == count + 1
  {
    var d := NatToDecimal(count + 1);
    DecimalValueOfDecimal(count + 1);
    if |d| < 3 {
      ZeroRunPrefixValue(3 - |d|, d);
    }
  }

  /** From 99 records on, `count + 1` has at least three digits and is used as it is, never cut down. */
  lemma SerialNoTruncation(count: nat)
    requires count >= 99
    ensures NextSerialNumber(count) == NatToDecimal(count + 1)
  {
    var d := NatToDecimal(count + 1);
    assert |d| >= 3 by {
      assert d[..|d| - 1] == NatToDecimal((count + 1) / 10);
      var e := NatToDecimal((count + 1) / 10);
      assert e[..|e| - 1] == NatToDecimal((count + 1) / 100);
    }
  }

  /** Padding at work: 0, 4 and 9 records give "001", "005" and "010". */
  lemma SerialPaddedExamples()
    ensures NextSerialNumber(0) == "001"
    ensures NextSerialNumber(4) == "005"
    ensures NextSerialNumber(9) == "010"
  {
    assert NatToDecimal(1) == "1";
    assert NatToDecimal(5) == "5";
    assert NatToDecimal(10) == NatToDecimal(1) + "0" == "10";
  }

  /** No truncation at work: 999 records give "1000". */
  lemma SerialWideExample()
    ensures NextSerialNumber(999) == "1000"
  {
    assert NatToDecimal(1) == "1";
    assert NatToDecimal(10) == NatToDecimal(1) + "0";
    assert NatToDecimal(100) == NatToDecimal(10) + "0";
    assert NatToDecimal(1000) == NatToDecimal(100) + "0" == "1000";
  }
}
