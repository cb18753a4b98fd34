/** Recovery passwords: their format, the check of it and the sixteen bytes a password stands for. */
module Recovery {
  import opened Bytes

  datatype RecoveryError = InvalidLength | NotNumeric | NotDivisible | TooLarge | NotSixDigits | BadChecksum

  // ---------- decimal numerals ----------

  predicate IsDigit(c: char) {
    '0' <= c <= '9'
  }

  predicate AllDigits(s: string) {
    forall i :: 0 <= i < |s| ==> IsDigit(s[i])
  }

  function DigitValue(c: char): nat
    requires IsDigit(c)
  {
    c as int - '0' as int
  }

  function Value(s: string): nat
    requires AllDigits(s)
  {
    if s == [] then 0 else 10 * Value(s[..|s| - 1]) + DigitValue(s[|s| - 1])
  }

  /** The last k decimal digits of n. */
  function Digits(n: nat, k: nat): (s: string)
    ensures |s| == k && AllDigits(s)
    decreases k, n
  {
    if k == 0 then [] else Digits(n / 10, k - 1) + ['0' + (n % 10) as char]
  }

  function Pow10(k: nat): (p: nat)
    ensures p > 0
  {
    if k == 0 then 1 else 10 * Pow10(k - 1)
  }

  lemma {:induction false} ValueOfDigits(n: nat, k: nat)
    requires n < Pow10(k)
    ensures Value(Digits(n, k)) == n
    decreases k
  {
    if k > 0 {
      ValueOfDigits(n / 10, k - 1);
      assert Digits(n, k)[..k - 1] == Digits(n / 10, k - 1);
    }
  }

  lemma {:induction false} DigitsOfValue(s: string)
    requires AllDigits(s)
    ensures Digits(Value(s), |s|) == s
  {
    if s != [] {
      var (front, last) := (s[..|s| - 1], s[|s| - 1]);
      DigitsOfValue(front);
      assert Value(s) / 10 == Value(front) && Value(s) % 10 == DigitValue(last);
      assert s == front + [last];
    }
  }

  /** strconv.Atoi: an optional sign, at least one digit, nothing else, and a value that fits 64 bits. */
  function Atoi(s: string): Option<int> {
    var u := if s != [] && s[0] in "+-" then s[1..] else s;
    if u == [] || !AllDigits(u) then None
    else
      var n: int := if s[0] == '-' then -(Value(u) as int) else Value(u);
      if -0x8000_0000_0000_0000 <= n < 0x8000_0000_0000_0000 then Some(n) else None
  }

  /** Go's remainder takes the sign of the dividend. */
  function Remainder(a: int, b: int): int
    requires b > 0
  {
    if a >= 0 then a % b else -(-a % b)
  }

  // ---------- blocks between dashes ----------

  /** strings.Split at every '-'. */
  function SplitDash(s: string): (bs: seq<string>)
    ensures |bs| >= 1
    ensures forall b :: b in bs ==> '-' !in b
  {
    if s == [] then [[]]
    else
      var rest := SplitDash(s[1..]);
      if s[0] == '-' then [[]] + rest else [[s[0]] + rest[0]] + rest[1..]
  }

  function JoinDash(bs: seq<string>): string
    requires bs != []
  {
    if |bs| == 1 then bs[0] else bs[0] + "-" + JoinDash(bs[1..])
  }

  lemma {:induction false} JoinOfSplit(s: string)
    ensures JoinDash(SplitDash(s)) == s
  {
    if s != [] {
      var rest := SplitDash(s[1..]);
      JoinOfSplit(s[1..]);
      if s[0] == '-' {
        assert ([[]] + rest)[1..] == rest;
      } else {
        var first := [s[0]] + rest[0];
        assert ([first] + rest[1..])[1..] == rest[1..];
        if |rest| == 1 {
          assert s == first;
        } else {
          assert s == [s[0]] + (rest[0] + "-" + JoinDash(rest[1..])) == first + "-" + JoinDash(rest[1..]);
        }
      }
    }
  }

  /** A block without dashes is split off whole. */
  lemma {:induction false} SplitAfterBlock(b: string, s: string)
    requires '-' !in b
    ensures SplitDash(b + "-" + s) == [b] + SplitDash(s)
    decreases |b|
  {
    var t := b + "-" + s;
    if b == [] {
      assert t[1..] == s;
    } else {
      SplitAfterBlock(b[1..], s);
      assert t[0] == b[0] && t[1..] == b[1..] + "-" + s;
      assert b == [b[0]] + b[1..];
    }
  }

  lemma {:induction false} SplitBlock(b: string)
    requires '-' !in b
    ensures SplitDash(b) == [b]
    decreases |b|
  {
    if b != [] {
      SplitBlock(b[1..]);
      assert b == [b[0]] + b[1..];
    }
  }

  lemma {:induction false} SplitOfJoin(bs: seq<string>)
    requires bs != [] && forall b :: b in bs ==> '-' !in b
    ensures SplitDash(JoinDash(bs)) == bs
    decreases |bs|
  {
    if |bs| == 1 {
      SplitBlock(bs[0]);
    } else {
      SplitOfJoin(bs[1..]);
      SplitAfterBlock(bs[0], JoinDash(bs[1..]));
    }
  }

  // ---------- the check ----------

  const LIMIT: nat := 720896

  /** What a character counts for in the checksum: anything but a digit is zero. */
  function Weight(c: char): nat {
    if IsDigit(c) then DigitValue(c) else 0
  }

  /** The alternating sum of the six characters is a multiple of 11. */
  predicate ChecksumHolds(b: string)
    requires |b| == 6
  {
    (Weight(b[0]) - Weight(b[1]) + Weight(b[2]) - Weight(b[3]) + Weight(b[4]) - Weight(b[5])) % 11 == 0
  }

  /** The first thing wrong with a block. */
  function BlockError(b: string): Option<RecoveryError> {
    var n := Atoi(b);
    if n.None? then Some(NotNumeric)
    else if n.value % 11 != 0 then Some(NotDivisible)
    else if n.value >= LIMIT then Some(TooLarge)
    else if |b| != 6 then Some(NotSixDigits)
    else if !ChecksumHolds(b) then Some(BadChecksum)
    else None
  }

  /** The first thing wrong with a list of blocks. */
  function FirstError(bs: seq<string>): Option<RecoveryError> {
    if bs == [] then None else if BlockError(bs[0]).Some? then BlockError(bs[0]) else FirstError(bs[1..])
  }

  /** The first thing wrong with a password. */
  function PasswordError(password: string): Option<RecoveryError> {
    var bs := SplitDash(password);
    if |bs| != 8 then Some(InvalidLength) else FirstError(bs)
  }

  predicate Accepted(password: string) {
    PasswordError(password).None?
  }

  lemma AtoiOfChar(c: char)
    ensures Atoi([c]) == if IsDigit(c) then Some(DigitValue(c)) else None
  {
    assert Value([c][..0]) == 0;
  }

  /** The truncated remainder, corrected upwards when negative, is the true one. */
  lemma CorrectedRemainder(a: int)
    ensures var r := Remainder(a, 11);
            (if r < 0 then r + 11 else r) == a % 11
  {
  }

  /** What one round of the check makes of a block. */
  method CheckBlock(block: string) returns (err: Option<RecoveryError>)
    ensures err == BlockError(block)
  {
    var parsed := Atoi(block);
    if parsed.None? {
      return Some(NotNumeric);
    }
    var blockValue := parsed.value;
    if Remainder(blockValue, 11) != 0 {
      return Some(NotDivisible);
    }
    if blockValue >= LIMIT {
      return Some(TooLarge);
    }
    var digits := BlockDigits(block);
    if digits.Length != 6 {
      return Some(NotSixDigits);
    }
    var sum := digits[0] - digits[1] + digits[2] - digits[3] + digits[4];
    var checksum := Remainder(sum, 11);
    if checksum < 0 {
      checksum := checksum + 11;
    }
    CorrectedRemainder(sum);
    SameRemainder(sum, digits[5]);
    return if checksum != digits[5] then Some(BadChecksum) else None;
  }

  lemma SameRemainder(sum: int, d: nat)
    requires d < 10
    ensures sum % 11 == d <==> (sum - d) % 11 == 0
  {
  }

  method BlockDigits(block: string) returns (digits: array<int>)
    ensures fresh(digits) && digits.Length == |block|
    ensures forall i :: 0 <= i < |block| ==> digits[i] == Weight(block[i])
  {
    digits := new int[|block|];
    for i := 0 to |block|
      invariant forall j :: 0 <= j < i ==> digits[j] == Weight(block[j])
    {
      AtoiOfChar(block[i]);
      var digit := Atoi([block[i]]);
      digits[i] := if digit.Some? then digit.value else 0;
    }
  }

  method CheckRecoveryPassword(password: string) returns (err: Option<RecoveryError>)
    ensures err == PasswordError(password)
  {
    var blocks := SplitDash(password);
    if |blocks| != 8 {
      return Some(InvalidLength);
    }
    for k := 0 to |blocks|
      invariant FirstError(blocks) == FirstError(blocks[k..])
    {
      assert blocks[k..][0] == blocks[k] && blocks[k..][1..] == blocks[k + 1..];
      err := CheckBlock(blocks[k]);
      if err.Some? {
        return;
      }
    }
    return None;
  }

  // ---------- the checksum rejects nothing more ----------

  lemma ValueOfSix(b: string)
    requires |b| == 6 && AllDigits(b)
    ensures Value(b) == 100000 * DigitValue(b[0]) + 10000 * DigitValue(b[1]) + 1000 * DigitValue(b[2]) +
                        100 * DigitValue(b[3]) + 10 * DigitValue(b[4]) + DigitValue(b[5])
  {
    assert b[..5][..4] == b[..4] && b[..4][..3] == b[..3] && b[..3][..2] == b[..2] && b[..2][..1] == b[..1];
    assert Value(b[..1]) == DigitValue(b[0]);
    assert Value(b[..2]) == 10 * Value(b[..1]) + DigitValue(b[1]);
    assert Value(b[..3]) == 10 * Value(b[..2]) + DigitValue(b[2]);
    assert Value(b[..4]) == 10 * Value(b[..3]) + DigitValue(b[3]);
    assert Value(b[..5]) == 10 * Value(b[..4]) + DigitValue(b[4]);
  }

  /** For six digits the checksum and divisibility by 11 are the same test. */
  lemma ChecksumIsDivisibility(b: string)
    requires |b| == 6 && AllDigits(b)
    ensures ChecksumHolds(b) <==> Value(b) % 11 == 0
  {
    ValueOfSix(b);
    var sum := Weight(b[0]) - Weight(b[1]) + Weight(b[2]) - Weight(b[3]) + Weight(b[4]) - Weight(b[5]);
    var q := 9091 * Weight(b[0]) + 909 * Weight(b[1]) + 91 * Weight(b[2]) + 9 * Weight(b[3]) + Weight(b[4]);
    assert Value(b) + sum == 11 * q;
  }

  /** A leading '+' counts as a leading zero. */
  function Plain(b: string): string {
    if b != [] && b[0] == '+' then "0" + b[1..] else b
  }

  /** Taken digit by digit from the front, a numeral with a leading zero has the same value. */
  lemma {:induction false} LeadingZero(s: string)
    requires AllDigits(s)
    ensures AllDigits("0" + s) && Value("0" + s) == Value(s)
  {
    if s == [] {
      assert Value(("0" + s)[..0]) == 0;
    } else {
      LeadingZero(s[..|s| - 1]);
      assert ("0" + s)[..|s|] == "0" + s[..|s| - 1];
    }
  }

  /** A dash-free block is a number exactly when its plain form is all digits, and then it has that value. */
  lemma AtoiOfPlain(b: string)
    requires |b| == 6 && '-' !in b
    ensures Atoi(b) == if AllDigits(Plain(b)) then Some(Value(Plain(b))) else None
  {
    if b[0] == '+' {
      var p := Plain(b);
      assert p[1..] == b[1..];
      if AllDigits(b[1..]) {
        LeadingZero(b[1..]);
        ValueOfSix(p);
      } else {
        var i :| 0 <= i < 5 && !IsDigit(b[1..][i]);
        assert !IsDigit(p[i + 1]);
      }
    } else {
      assert b[0] in b;
      if AllDigits(b) { ValueOfSix(b); }
    }
  }

  lemma PlainChecksum(b: string)
    requires |b| == 6
    ensures |Plain(b)| == 6 && (ChecksumHolds(Plain(b)) <==> ChecksumHolds(b))
  {
  }

  /** The whole check of a block: six digits, up to a leading '+', that make a multiple of 11 below the limit. */
  lemma BlockAccepted(b: string)
    requires '-' !in b
    ensures BlockError(b).None? <==>
            |b| == 6 && AllDigits(Plain(b)) && Value(Plain(b)) % 11 == 0 && Value(Plain(b)) < LIMIT
    ensures BlockError(b) != Some(BadChecksum)
  {
    if |b| == 6 {
      AtoiOfPlain(b);
      PlainChecksum(b);
      if AllDigits(Plain(b)) {
        ChecksumIsDivisibility(Plain(b));
      }
    }
  }

  /** What is wrong with a block, in the order of the tests: u is the block without a leading '+'. */
  lemma BlockErrorIs(b: string, u: string)
    requires '-' !in b && u == if b != [] && b[0] == '+' then b[1..] else b
    ensures BlockError(b) ==
            if u == [] || !AllDigits(u) || Value(u) >= 0x8000_0000_0000_0000 then Some(NotNumeric)
            else if Value(u) % 11 != 0 then Some(NotDivisible)
            else if Value(u) >= 720896 then Some(TooLarge)
            else if |b| != 6 then Some(NotSixDigits)
            else None
  {
    AtoiIs(b, u);
    BlockAccepted(b);
  }

  lemma AtoiIs(b: string, u: string)
    requires '-' !in b && u == if b != [] && b[0] == '+' then b[1..] else b
    ensures Atoi(b) == if u == [] || !AllDigits(u) || Value(u) >= 0x8000_0000_0000_0000 then None else Some(Value(u))
  {
    if b != [] { assert b[0] in b; }
  }

  /** The error of a password is that of its first bad block. */
  lemma {:induction false} FirstErrorIs(bs: seq<string>, i: nat)
    requires i < |bs| && BlockError(bs[i]).Some? && forall k :: 0 <= k < i ==> BlockError(bs[k]).None?
    ensures FirstError(bs) == BlockError(bs[i])
    decreases i
  {
    if i > 0 {
      FirstErrorIs(bs[1..], i - 1);
    }
  }

  /** The checksum test never fires: whatever reaches it passes. */
  lemma {:induction false} ChecksumNeverFires(bs: seq<string>)
    requires forall b :: b in bs ==> '-' !in b
    ensures FirstError(bs) != Some(BadChecksum)
  {
    if bs != [] {
      BlockAccepted(bs[0]);
      ChecksumNeverFires(bs[1..]);
    }
  }

  lemma ChecksumRedundant(password: string)
    ensures PasswordError(password) != Some(BadChecksum)
  {
    ChecksumNeverFires(SplitDash(password));
  }

  // ---------- passwords and words ----------

  function PrintWord(w: U16): string {
    Digits(11 * w, 6)
  }

  function PrintWords(ws: seq<U16>): (bs: seq<string>)
    ensures |bs| == |ws|
  {
    seq(|ws|, i requires 0 <= i < |ws| => PrintWord(ws[i]))
  }

  /** Eight words as a recovery password. */
  function PrintPassword(ws: seq<U16>): string
    requires |ws| == 8
  {
    JoinDash(PrintWords(ws))
  }

  /** The word a block stands for. */
  function Word(b: string): U16 {
    var n := Atoi(b);
    if n.Some? && 0 <= n.value < LIMIT then n.value / 11 else 0
  }

  function Words(bs: seq<string>): (ws: seq<U16>)
    ensures |ws| == |bs|
  {
    seq(|bs|, i requires 0 <= i < |bs| => Word(bs[i]))
  }

  function PlainBlocks(bs: seq<string>): (ps: seq<string>)
    ensures |ps| == |bs|
  {
    seq(|bs|, i requires 0 <= i < |bs| => Plain(bs[i]))
  }

  lemma Million()
    ensures Pow10(6) == 1000000
  {
    assert Pow10(3) == 1000 && Pow10(4) == 10 * Pow10(3) && Pow10(5) == 10 * Pow10(4);
  }

  lemma NotADigit(s: string, c: char)
    requires AllDigits(s) && !IsDigit(c)
    ensures c !in s
  {
  }

  lemma PrintedDigits(w: U16, b: string)
    requires b == PrintWord(w)
    ensures |b| == 6 && AllDigits(b) && Value(b) == 11 * w && '-' !in b && Plain(b) == b
  {
    Million();
    ValueOfDigits(11 * w, 6);
    NotADigit(b, '-');
    NotADigit(b, '+');
    assert b[0] in b;
  }

  lemma PrintedWord(w: U16, b: string)
    requires b == PrintWord(w)
    ensures '-' !in b && Plain(b) == b && BlockError(b).None? && Word(b) == w
  {
    PrintedDigits(w, b);
    AcceptedMultiple(b, w);
  }

  lemma AcceptedMultiple(b: string, w: U16)
    requires |b| == 6 && AllDigits(b) && Value(b) == 11 * w && '-' !in b && Plain(b) == b
    ensures BlockError(b).None? && Word(b) == w
  {
    MultipleOfEleven(b, w);
    WordOfMultiple(b, w);
  }

  lemma MultipleOfEleven(b: string, w: U16)
    requires |b| == 6 && AllDigits(b) && Value(b) == 11 * w && '-' !in b && Plain(b) == b
    ensures BlockError(b).None?
  {
    BelowLimit(w);
    BlockAccepted(b);
  }

  lemma BelowLimit(w: U16)
    ensures (11 * w) % 11 == 0 && 11 * w < LIMIT
  {
  }

  lemma WordOfMultiple(b: string, w: U16)
    requires |b| == 6 && AllDigits(b) && Value(b) == 11 * w && '-' !in b && Plain(b) == b
    ensures Word(b) == w
  {
    AtoiOfPlain(b);
  }

  /** An accepted block is, up to a leading '+', the printing of the word it stands for. */
  lemma AcceptedBlock(b: string)
    requires '-' !in b
    ensures BlockError(b).None? <==> Plain(b) == PrintWord(Word(b))
  {
    BlockAccepted(b);
    var p := Plain(b);
    var w: nat := Word(b);
    if BlockError(b).None? {
      AtoiOfPlain(b);
      assert Value(p) == 11 * w;
      DigitsOfValue(p);
    }
    if p == PrintWord(w) {
      PrintedWord(w, p);
    }
  }

  lemma {:induction false} FirstErrorNone(bs: seq<string>)
    ensures FirstError(bs).None? <==> forall i :: 0 <= i < |bs| ==> BlockError(bs[i]).None?
  {
    if bs != [] {
      FirstErrorNone(bs[1..]);
      if forall i :: 0 <= i < |bs| ==> BlockError(bs[i]).None? {
        forall i | 0 <= i < |bs[1..]| ensures BlockError(bs[1..][i]).None? {
          assert bs[1..][i] == bs[i + 1];
        }
      }
      if FirstError(bs).None? {
        forall i | 0 <= i < |bs| ensures BlockError(bs[i]).None? {
          if i > 0 { assert bs[i] == bs[1..][i - 1]; }
        }
      }
    }
  }

  lemma AcceptedBlocks(bs: seq<string>)
    requires forall b :: b in bs ==> '-' !in b
    ensures FirstError(bs).None? <==> PlainBlocks(bs) == PrintWords(Words(bs))
  {
    FirstErrorNone(bs);
    forall i | 0 <= i < |bs| ensures BlockError(bs[i]).None? <==> PlainBlocks(bs)[i] == PrintWords(Words(bs))[i] {
      AcceptedBlock(bs[i]);
    }
  }

  /** The password with each leading '+' of a block replaced by '0'. */
  function PlainPassword(password: string): string {
    JoinDash(PlainBlocks(SplitDash(password)))
  }

  function PasswordWords(password: string): seq<U16> {
    Words(SplitDash(password))
  }

  lemma PrintedBlocks(ws: seq<U16>)
    ensures forall b :: b in PrintWords(ws) ==> '-' !in b
    ensures Words(PrintWords(ws)) == ws && PlainBlocks(PrintWords(ws)) == PrintWords(ws)
  {
    forall i | 0 <= i < |ws|
      ensures '-' !in PrintWords(ws)[i] && Word(PrintWords(ws)[i]) == ws[i]
      ensures Plain(PrintWords(ws)[i]) == PrintWords(ws)[i]
    {
      PrintedWord(ws[i], PrintWords(ws)[i]);
    }
  }

  /** Every eight words print as an accepted password that stands for them. */
  lemma PrintedIsAccepted(ws: seq<U16>)
    requires |ws| == 8
    ensures Accepted(PrintPassword(ws)) && PasswordWords(PrintPassword(ws)) == ws
    ensures PlainPassword(PrintPassword(ws)) == PrintPassword(ws)
  {
    PrintedBlocks(ws);
    SplitOfJoin(PrintWords(ws));
    AcceptedBlocks(PrintWords(ws));
  }

  lemma PlainHasNoDash(bs: seq<string>)
    requires forall b :: b in bs ==> '-' !in b
    ensures forall b :: b in PlainBlocks(bs) ==> '-' !in b
  {
    forall i | 0 <= i < |bs| ensures '-' !in Plain(bs[i]) {
      assert bs[i] in bs;
    }
  }

  /** A password is accepted exactly when, up to leading '+' signs, it is the printing of the words it stands for. */
  lemma AcceptedIsPrinted(password: string)
    ensures Accepted(password) <==>
            |PasswordWords(password)| == 8 && PlainPassword(password) == PrintPassword(PasswordWords(password))
  {
    var bs := SplitDash(password);
    AcceptedBlocks(bs);
    if |bs| == 8 && PlainPassword(password) == PrintPassword(Words(bs)) {
      PlainHasNoDash(bs);
      PrintedBlocks(Words(bs));
      SplitOfJoin(PlainBlocks(bs));
      SplitOfJoin(PrintWords(Words(bs)));
    }
  }

  /** Among accepted passwords, the printed ones are exactly those without a '+'. */
  lemma PrintedExactlyWithoutPlus(password: string)
    requires Accepted(password)
    ensures (exists ws: seq<U16> :: |ws| == 8 && password == PrintPassword(ws)) <==> '+' !in password
  {
    var bs := SplitDash(password);
    JoinOfSplit(password);
    AcceptedIsPrinted(password);
    if '+' !in password {
      NoPlus(password);
      assert password == PrintPassword(PasswordWords(password));
    }
    if ws: seq<U16> :| |ws| == 8 && password == PrintPassword(ws) {
      PrintedHasNoPlus(ws);
    }
  }

  lemma {:induction false} SplitKeepsChars(s: string, c: char)
    requires c !in s
    ensures forall b :: b in SplitDash(s) ==> c !in b
  {
    if s != [] {
      SplitKeepsChars(s[1..], c);
    }
  }

  lemma NoPlus(password: string)
    requires '+' !in password
    ensures PlainPassword(password) == password
  {
    var bs := SplitDash(password);
    SplitKeepsChars(password, '+');
    JoinOfSplit(password);
    forall i | 0 <= i < |bs| ensures Plain(bs[i]) == bs[i] {
      assert bs[i] in bs;
    }
    assert PlainBlocks(bs) == bs;
  }

  lemma {:induction false} JoinKeepsChars(bs: seq<string>, c: char)
    requires bs != [] && c != '-' && forall b :: b in bs ==> c !in b
    ensures c !in JoinDash(bs)
    decreases |bs|
  {
    if |bs| > 1 {
      JoinKeepsChars(bs[1..], c);
    }
  }

  lemma PrintedHasNoPlus(ws: seq<U16>)
    requires |ws| == 8
    ensures '+' !in PrintPassword(ws)
  {
    forall b | b in PrintWords(ws) ensures '+' !in b {
      var i :| 0 <= i < |ws| && b == PrintWord(ws[i]);
      NotADigit(b, '+');
    }
    JoinKeepsChars(PrintWords(ws), '+');
  }

  /** A password that is accepted although it is not printed from any words. */
  lemma PlusIsAccepted()
    ensures var password := JoinDash(seq(8, _ => "+00011"));
            Accepted(password) && '+' in password
  {
    var bs := seq(8, _ => "+00011");
    SplitOfJoin(bs);
    var p := "000011";
    assert Plain("+00011") == p by { assert "+00011"[1..] == "00011"; }
    ValueOfSix(p);
    BlockAccepted("+00011");
    FirstErrorNone(bs);
    assert JoinDash(bs)[0] == '+';
  }

  // ---------- the key ----------

  /** The words, each as two bytes, least significant first. */
  function KeyBytes(ws: seq<U16>): (k: seq<byte>)
    ensures |k| == 2 * |ws|
  {
    if ws == [] then [] else KeyBytes(ws[..|ws| - 1]) + LE(ws[|ws| - 1], 2)
  }

  lemma KeyBytesStep(ws: seq<U16>, i: nat)
    requires i < |ws|
    ensures KeyBytes(ws[..i + 1]) == KeyBytes(ws[..i]) + LE(ws[i], 2)
  {
    assert ws[..i + 1][..i] == ws[..i];
  }

  lemma {:induction false} KeyBytesInjective(ws: seq<U16>, vs: seq<U16>)
    requires |ws| == |vs| && KeyBytes(ws) == KeyBytes(vs)
    ensures ws == vs
    decreases |ws|
  {
    if ws != [] {
      var (a, b, n) := (KeyBytes(ws), KeyBytes(vs), |ws| - 1);
      assert a[..2 * n] == KeyBytes(ws[..n]) && b[..2 * n] == KeyBytes(vs[..n]);
      assert a[2 * n..] == LE(ws[n], 2) && b[2 * n..] == LE(vs[n], 2);
      KeyBytesInjective(ws[..n], vs[..n]);
      Pow256Values();
      FromLEOfLE(ws[n], 2);
      FromLEOfLE(vs[n], 2);
      assert ws == ws[..n] + [ws[n]] && vs == vs[..n] + [vs[n]];
    }
  }

  method PutUint16(key: array<byte>, i: nat, v: nat)
    requires i + 2 <= key.Length && v < 0x1_0000
    modifies key
    ensures key[..i + 2] == old(key[..i]) + LE(v, 2) && key[i + 2..] == old(key[i + 2..])
  {
    key[i], key[i + 1] := (v % 256) as byte, (v / 256) as byte;
    assert LE(v, 2) == [(v % 256) as byte, (v / 256) as byte] by {
      assert LE(v / 256, 1) == [(v / 256) as byte] + LE(v / 256 / 256, 0);
    }
  }

  lemma AcceptedWord(b: string)
    requires '-' !in b && BlockError(b).None?
    ensures Atoi(b).Some? && Word(b) as int == Atoi(b).value / 11
  {
    assert b != [] && b[0] in b;
  }

  method BlockWord(block: string) returns (w: nat)
    requires '-' !in block && BlockError(block).None?
    ensures w == Word(block)
  {
    AcceptedWord(block);
    var blockValue := Atoi(block).value;
    blockValue := blockValue / 11;
    return blockValue % 0x1_0000;
  }

  ghost predicate AllAccepted(blocks: seq<string>) {
    forall i {:trigger BlockError(blocks[i])} :: 0 <= i < |blocks| ==> '-' !in blocks[i] && BlockError(blocks[i]).None?
  }

  /** The word of block i, in its place in the key. */
  method PutWord(key: array<byte>, blocks: seq<string>, i: nat)
    requires i < |blocks| && 2 * i + 2 <= key.Length && AllAccepted(blocks)
    modifies key
    ensures key[..2 * i + 2] == old(key[..2 * i]) + LE(Words(blocks)[i], 2) && key[2 * i + 2..] == old(key[2 * i + 2..])
  {
    assert BlockError(blocks[i]).None?;
    var w := BlockWord(blocks[i]);
    PutUint16(key, i * 2, w);
  }

  /** The sixteen bytes, filled in block by block. */
  method BlocksToKey(blocks: seq<string>) returns (key: array<byte>)
    requires |blocks| == 8 && AllAccepted(blocks)
    ensures fresh(key) && key[..] == KeyBytes(Words(blocks))
  {
    key := new byte[16];
    ghost var ws := Words(blocks);
    for i := 0 to |blocks|
      invariant key[..2 * i] == KeyBytes(ws[..i])
    {
      PutWord(key, blocks, i);
      KeyBytesStep(ws, i);
    }
    assert key[..] == key[..16] && ws[..8] == ws;
  }

  /** The hash is a parameter: what is fixed here are the sixteen bytes it is given. */
  method DeriveRecoveryKey(recoveryPassword: string, sum256: seq<byte> -> seq<byte>)
      returns (r: Result<seq<byte>, RecoveryError>)
    ensures r.Err? <==> !Accepted(recoveryPassword)
    ensures r.Err? ==> Some(r.error) == PasswordError(recoveryPassword)
    ensures r.Ok? ==> r.value == sum256(KeyBytes(PasswordWords(recoveryPassword)))
  {
    var err := CheckRecoveryPassword(recoveryPassword);
    if err.Some? {
      return Err(err.value);
    }
    var blocks := SplitDash(recoveryPassword);
    FirstErrorNone(blocks);
    var key := BlocksToKey(blocks);
    return Ok(sum256(key[..]));
  }

  /** Two accepted passwords give the same bytes exactly when they differ at most in '+' for a leading '0'. */
  lemma SameKeyExactly(s: string, t: string)
    requires Accepted(s) && Accepted(t)
    ensures KeyBytes(PasswordWords(s)) == KeyBytes(PasswordWords(t)) <==> PlainPassword(s) == PlainPassword(t)
  {
    AcceptedIsPrinted(s);
    AcceptedIsPrinted(t);
    PrintedIsAccepted(PasswordWords(s));
    PrintedIsAccepted(PasswordWords(t));
    if KeyBytes(PasswordWords(s)) == KeyBytes(PasswordWords(t)) {
      KeyBytesInjective(PasswordWords(s), PasswordWords(t));
    }
  }

  /** Word i stands in bytes 2 i and 2 i + 1, low byte first. */
  lemma {:induction false} KeyByteAt(ws: seq<U16>, i: nat)
    requires i < |ws|
    ensures KeyBytes(ws)[2 * i] as int == ws[i] % 256 && KeyBytes(ws)[2 * i + 1] as int == ws[i] / 256
    decreases |ws|
  {
    var n := |ws| - 1;
    if i < n {
      KeyByteAt(ws[..n], i);
    } else {
      assert LE(ws[n], 2)[1..] == LE(ws[n] / 256, 1);
    }
  }

  /** Of an accepted password, 11 times the number in two bytes of the key is the number in the block. */
  lemma KeyIsPassword(password: string, i: nat)
    requires Accepted(password) && i < 8
    ensures |SplitDash(password)| == 8
    ensures var (k, b) := (KeyBytes(PasswordWords(password)), SplitDash(password)[i]);
            |k| == 16 && |b| == 6 && AllDigits(Plain(b)) &&
            11 * (k[2 * i] as int + 256 * (k[2 * i + 1] as int)) == Value(Plain(b))
  {
    var bs := SplitDash(password);
    FirstErrorNone(bs);
    assert bs[i] in bs;
    BlockAccepted(bs[i]);
    AtoiOfPlain(bs[i]);
    KeyByteAt(PasswordWords(password), i);
  }
}
