/** `ccf.mfa` and the part of `ccf.identity.mfa_service` that spends what it verifies. */
module Mfa {
  import opened Nulls
  import opened Text
  import opened Decimal
  import opened BitGroups
  import Base32

  const DIGITS := 6
  const PERIOD_SECONDS := 30
  const DRIFT_STEPS := 1

  // ---- the secret as text ----

  /** What `generate_secret` shows for the random octets it drew. */
  function SecretText(bytes: seq<byte>): string {
    Unpadded(Base32.Encode(bytes))
  }

  function Cleaned(secret: string): string {
    Upper(Remove(Strip(secret), ' '))
  }

  /** `None` stands for the `binascii.Error` a malformed secret raises. */
  function DecodeSecret(secret: string): Option<seq<byte>> {
    Base32.Decode(Restore(Cleaned(secret), 8))
  }

  /** `" ".join(...)` over groups of four. */
  function FormatForManualEntry(secret: string): string {
    if |secret| <= 4 then secret else secret[..4] + [' '] + FormatForManualEntry(secret[4..])
  }

  lemma {:induction false} UpperRemove(s: string, c: char)
    requires !('A' <= c <= 'Z') && !('a' <= c <= 'z')
    ensures Upper(Remove(s, c)) == Remove(Upper(s), c)
  {
    if s != [] {
      UpperRemove(s[1..], c);
      assert Upper(s)[1..] == Upper(s[1..]);
    }
  }

  lemma {:induction false} KeptByRemove(s: string, c: char, kept: char)
    requires kept in s && kept != c
    ensures kept in Remove(s, c)
  {
    if s[0] != kept {
      KeptByRemove(s[1..], c, kept);
    }
  }

  lemma {:induction false} RemoveAbsent(s: string, c: char)
    requires c !in s
    ensures Remove(s, c) == s
  {
    if s != [] {
      RemoveAbsent(s[1..], c);
    }
  }

  /** Case, interior spaces and surrounding whitespace are forgiven; nothing else is changed. */
  lemma CleanedTyped(pre: string, typed: string, post: string, wanted: string)
    requires forall c :: c in pre + post ==> IsSpace(c)
    requires forall i :: 0 <= i < |wanted| ==> Base32.InAlphabet(wanted[i]) || wanted[i] == '-'
    requires Remove(Upper(typed), ' ') == wanted
    ensures Cleaned(pre + typed + post) == wanted
  {
    forall c | c in typed && IsSpace(c) ensures c == ' ' {
      if c != ' ' {
        var i :| 0 <= i < |typed| && typed[i] == c;
        assert Upper(typed)[i] == c;
        KeptByRemove(Upper(typed), ' ', c);
        assert false;
      }
    }
    CleanedSurround(pre, typed, post);
    UpperRemove(typed, ' ');
  }

  lemma SecretTextInAlphabet(bytes: seq<byte>)
    ensures SecretText(bytes) == Base32.Data(bytes)
    ensures forall i :: 0 <= i < |SecretText(bytes)| ==> Base32.InAlphabet(SecretText(bytes)[i])
  {
    Base32.UnpaddedEncoding(bytes);
  }

  /**
   * A secret comes back octet for octet, at every length, from any retyping that keeps its letters and digits in
   * order: spaces anywhere, either case, whitespace around it.
   */
  lemma DecodeTyped(bytes: seq<byte>, pre: string, typed: string, post: string)
    requires forall c :: c in pre + post ==> IsSpace(c)
    requires Remove(Upper(typed), ' ') == SecretText(bytes)
    ensures DecodeSecret(pre + typed + post) == Some(bytes)
  {
    SecretTextInAlphabet(bytes);
    CleanedTyped(pre, typed, post, SecretText(bytes));
    Base32.DecodeRestored(bytes);
  }

  lemma {:induction false} RemoveFormatted(secret: string)
    requires ' ' !in secret
    ensures Remove(FormatForManualEntry(secret), ' ') == secret
  {
    if |secret| <= 4 {
      RemoveAbsent(secret, ' ');
    } else {
      RemoveConcat(secret[..4] + [' '], FormatForManualEntry(secret[4..]), ' ');
      RemoveConcat(secret[..4], [' '], ' ');
      RemoveAbsent(secret[..4], ' ');
      assert Remove([' '], ' ') == [];
      RemoveFormatted(secret[4..]);
    }
  }

  /** Reading the grouped display off the screen, in either case, gives the secret. */
  lemma DecodeShown(bytes: seq<byte>, pre: string, typed: string, post: string)
    requires forall c :: c in pre + post ==> IsSpace(c)
    requires Upper(typed) == FormatForManualEntry(SecretText(bytes))
    ensures DecodeSecret(pre + typed + post) == Some(bytes)
  {
    SecretTextInAlphabet(bytes);
    RemoveFormatted(SecretText(bytes));
    DecodeTyped(bytes, pre, typed, post);
  }

  /** The display keeps every character in order, with a space after every fourth. */
  lemma {:induction false} FormatAt(secret: string, i: nat)
    requires i < |secret|
    ensures i + i / 4 < |FormatForManualEntry(secret)| && FormatForManualEntry(secret)[i + i / 4] == secret[i]
    ensures i % 4 == 3 && i + 1 < |secret| ==>
      i + i / 4 + 1 < |FormatForManualEntry(secret)| && FormatForManualEntry(secret)[i + i / 4 + 1] == ' '
  {
    if i >= 4 {
      FormatAt(secret[4..], i - 4);
      assert (i - 4) / 4 == i / 4 - 1;
    }
  }

  // ---- recovery codes ----

  const RECOVERY_BYTES := 10

  /** One code of `generate_recovery_codes`, for the random octets it drew. */
  function RecoveryCode(bytes: seq<byte>): string
    requires |bytes| == RECOVERY_BYTES
  {
    SecretTextInAlphabet(bytes);
    EncodeCount(bytes, 5);
    var raw := SecretText(bytes);
    raw[..8] + ['-'] + raw[8..]
  }

  /** Two halves of eight symbols, joined by a dash. */
  lemma RecoveryCodeShape(bytes: seq<byte>)
    requires |bytes| == 10
    ensures |RecoveryCode(bytes)| == 17 && RecoveryCode(bytes)[8] == '-'
    ensures RecoveryCode(bytes)[..8] + RecoveryCode(bytes)[9..] == SecretText(bytes)
  {
    SecretTextInAlphabet(bytes);
    EncodeCount(bytes, 5);
    var raw := SecretText(bytes);
    assert raw[..8] + raw[8..] == raw;
    assert RecoveryCode(bytes)[9..] == raw[8..] && RecoveryCode(bytes)[..8] == raw[..8];
  }

  function NormalizeRecoveryCode(code: string): string {
    Upper(Remove(Remove(Strip(code), ' '), '-'))
  }

  /** A recovery code retyped in either case, with spaces or whitespace around it, normalises to its 16 symbols. */
  lemma RecoveryCodeTyped(bytes: seq<byte>, pre: string, typed: string, post: string)
    requires |bytes| == RECOVERY_BYTES
    requires forall c :: c in pre + post ==> IsSpace(c)
    requires Remove(Upper(typed), ' ') == RecoveryCode(bytes)
    ensures NormalizeRecoveryCode(pre + typed + post) == SecretText(bytes)
    ensures |SecretText(bytes)| == 16
  {
    SecretTextInAlphabet(bytes);
    EncodeCount(bytes, 5);
    var raw := SecretText(bytes);
    CleanedTyped(pre, typed, post, RecoveryCode(bytes));
    UpperRemove(Remove(Strip(pre + typed + post), ' '), '-');
    RemoveSeparator(raw[..8], '-', raw[8..]);
  }

  lemma {:induction false} RemoveSeparator(a: string, c: char, b: string)
    requires c !in a && c !in b
    ensures Remove(a + [c] + b, c) == a + b
  {
    var s := a + [c] + b;
    if a == [] {
      assert s[1..] == b;
      RemoveAbsent(b, c);
    } else {
      assert s[1..] == a[1..] + [c] + b;
      RemoveSeparator(a[1..], c, b);
    }
  }

  /** Different octets give different secrets and recovery codes. */
  lemma SecretTextInjective(a: seq<byte>, b: seq<byte>)
    requires SecretText(a) == SecretText(b)
    ensures a == b
  {
    SecretTextInAlphabet(a);
    SecretTextInAlphabet(b);
    Base32.DecodeRestored(a);
    Base32.DecodeRestored(b);
  }

  // ---- HOTP ----

  type Mac20 = m: seq<byte> | |m| == 20 witness seq(20, _ => 0)

  /** HMAC-SHA1: key and message to digest. */
  type HmacSha1 = (seq<byte>, seq<byte>) -> Mac20

  /** The `width` octets of a counter, most significant first; `struct.pack(">Q", ...)` for a width of eight. */
  function CounterOctets(counter: nat, width: nat): (octets: seq<byte>)
    ensures |octets| == width
  {
    if width == 0 then [] else CounterOctets(counter / 256, width - 1) + [counter % 256]
  }

  function Power256(n: nat): (p: nat)
    ensures p >= 1
  {
    if n == 0 then 1 else 256 * Power256(n - 1)
  }

  /** They spell the counter, so different counters are different messages. */
  lemma {:induction false} CounterOctetsSpell(counter: nat, width: nat)
    requires counter < Power256(width)
    ensures Spelled(AsNats(CounterOctets(counter, width)), 256) == counter
  {
    if width > 0 {
      CounterOctetsSpell(counter / 256, width - 1);
      var octets := CounterOctets(counter, width);
      assert AsNats(octets)[..width - 1] == AsNats(CounterOctets(counter / 256, width - 1));
    } else {
      assert AsNats(CounterOctets(counter, 0)) == [];
    }
  }

  function BigEndian(a: nat, b: nat, c: nat, d: nat): nat {
    a * 0x100_0000 + b * 0x1_0000 + c * 0x100 + d
  }

  /** Dynamic truncation, section 5.3 of RFC 4226: offset from the low nibble, high bit masked off. */
  function Truncated(mac: Mac20): nat {
    var offset := mac[|mac| - 1] % 16;
    BigEndian(mac[offset], mac[offset + 1], mac[offset + 2], mac[offset + 3]) % 0x8000_0000
  }

  function Code(mac: Mac20, digits: nat): string {
    ZFill(Print(Truncated(mac) % Pow10(digits)), digits)
  }

  /**
   * The word, octet by octet: the four octets from the offset that the last octet's low half gives, most significant
   * first, without the top bit of the first. So it fits in 31 bits.
   */
  lemma TruncatedOctets(mac: Mac20)
    ensures var i, word := mac[19] % 16, Truncated(mac);
      && i + 3 < 20 && word < 0x8000_0000
      && word % 0x100 == mac[i + 3] && word / 0x100 % 0x100 == mac[i + 2]
      && word / 0x1_0000 % 0x100 == mac[i + 1] && word / 0x100_0000 == mac[i] % 128
  {
    var i := mac[19] % 16;
    TopBitDrops(mac[i] / 128, mac[i] % 128, mac[i + 1], mac[i + 2], mac[i + 3]);
    OctetsOf(mac[i] % 128, mac[i + 1], mac[i + 2], mac[i + 3]);
  }

  lemma OctetsOf(a: nat, b: nat, c: nat, d: nat)
    requires a < 0x100 && b < 0x100 && c < 0x100 && d < 0x100
    ensures var word := BigEndian(a, b, c, d);
      word % 0x100 == d && word / 0x100 % 0x100 == c && word / 0x1_0000 % 0x100 == b && word / 0x100_0000 == a
  {
    var word := BigEndian(a, b, c, d);
    assert word / 0x100 == a * 0x1_0000 + b * 0x100 + c;
    assert word / 0x1_0000 == a * 0x100 + b;
  }

  /** The worked example of section 5.4 of RFC 4226. */
  lemma Rfc4226Example()
    ensures var mac: Mac20 := [0x1f, 0x86, 0x98, 0x69, 0x0e, 0x02, 0xca, 0x16, 0x61, 0x85,
                               0x50, 0xef, 0x7f, 0x19, 0xda, 0x8e, 0x94, 0x5b, 0x55, 0x5a];
      Truncated(mac) == 0x50ef_7f19 && Truncated(mac) % 1_000_000 == 872_921
  {
    var mac: Mac20 := [0x1f, 0x86, 0x98, 0x69, 0x0e, 0x02, 0xca, 0x16, 0x61, 0x85,
                       0x50, 0xef, 0x7f, 0x19, 0xda, 0x8e, 0x94, 0x5b, 0x55, 0x5a];
    assert mac[19] % 16 == 10;
    assert mac[10] == 0x50 && mac[11] == 0xef && mac[12] == 0x7f && mac[13] == 0x19;
  }

  lemma TopBitDrops(top: nat, a: nat, b: nat, c: nat, d: nat)
    requires top <= 1 && a < 128 && b < 256 && c < 256 && d < 256
    ensures BigEndian(128 * top + a, b, c, d) % 0x8000_0000 == BigEndian(a, b, c, d) < 0x8000_0000
  {
    if top == 1 {
      assert BigEndian(128 * top + a, b, c, d) == 0x8000_0000 + BigEndian(a, b, c, d);
    }
  }

  /** A code is exactly `digits` decimal digits, and they read back as the word modulo the power of ten. */
  lemma CodeShape(mac: Mac20, digits: nat)
    requires digits >= 1
    ensures |Code(mac, digits)| == digits && AllDigits(Code(mac, digits))
    ensures Value(Code(mac, digits)) == Truncated(mac) % Pow10(digits)
  {
    var n := Truncated(mac) % Pow10(digits);
    ValueOfPrint(n);
    PrintLength(n, digits);
    ZFillValue(Print(n), digits);
  }

  datatype Error = BadSecret | CounterOutOfRange

  function Hotp(sha1: HmacSha1, secret: string, counter: int): Result<string, Error> {
    match DecodeSecret(secret)
    case None => Failure(BadSecret)
    case Some(key) =>
      if 0 <= counter < 0x1_0000_0000_0000_0000 then Success(Code(sha1(key, CounterOctets(counter, 8)), DIGITS))
      else Failure(CounterOutOfRange)
  }

  /**
   * The code of a counter: six digits that read back as the truncated word of the MAC of the counter's eight octets,
   * modulo a million. A secret that is not base32 and a counter beyond eight octets are errors.
   */
  lemma HotpIs(sha1: HmacSha1, secret: string, counter: int)
    ensures Hotp(sha1, secret, counter).Success? <==> DecodeSecret(secret).Some? && 0 <= counter < Power256(8)
    ensures Hotp(sha1, secret, counter).Success? ==>
      var code := Hotp(sha1, secret, counter).value;
      && |code| == 6 && AllDigits(code)
      && Value(code) == Truncated(sha1(DecodeSecret(secret).value, CounterOctets(counter, 8))) % 1_000_000
  {
    assert Power256(4) == 0x1_0000_0000;
    assert Power256(8) == 0x1_0000_0000_0000_0000;
    if Hotp(sha1, secret, counter).Success? {
      CodeShape(sha1(DecodeSecret(secret).value, CounterOctets(counter, 8)), 6);
      assert Pow10(3) == 1000;
      assert Pow10(6) == 1_000_000;
    }
  }

  /** A secret with a character that is no base32 symbol, whatever the spaces and the case, is an error. */
  lemma BadSecretRefused(sha1: HmacSha1, secret: string, counter: int, i: nat)
    requires i < |Cleaned(secret)| && !Base32.InAlphabet(Cleaned(secret)[i]) && Cleaned(secret)[i] != '='
    ensures Hotp(sha1, secret, counter) == Failure(BadSecret)
  {
    Base32.DecodeRefuses(Restore(Cleaned(secret), 8), i);
  }

  // ---- TOTP verification ----

  function Timestep(now: real): int {
    Truncate(now) / PERIOD_SECONDS
  }

  /** Steps are thirty seconds long and change on the whole half-minute. */
  lemma TimestepIs(now: real, step: int)
    ensures Timestep(now) == step <==> 30 * step <= Truncate(now) < 30 * step + 30
  {
  }

  function Presented(code: string): string {
    Remove(Strip(code), ' ')
  }

  predicate WellFormed(code: string) {
    AllDigits(Presented(code)) && |Presented(code)| == DIGITS
  }

  predicate Unspent(step: int, last: Option<int>) {
    last == None || step > last.value
  }

  /** The code, or the error, that each counter yields. */
  type Codes = int -> Result<string, Error>

  function CodesOf(sha1: HmacSha1, secret: string): Codes {
    counter => Hotp(sha1, secret, counter)
  }

  predicate Matches(codes: Codes, wanted: string, step: int) {
    codes(step) == Success(wanted)
  }

  /** The answer the drift-window loop gives from step `lo` on. */
  function Scan(codes: Codes, wanted: string, lo: int, hi: int, last: Option<int>): Result<Option<int>, Error>
    decreases hi - lo
  {
    if lo >= hi then Success(None)
    else if !Unspent(lo, last) then Scan(codes, wanted, lo + 1, hi, last)
    else match codes(lo)
      case Failure(e) => Failure(e)
      case Success(expected) =>
        if expected == wanted then Success(Some(lo)) else Scan(codes, wanted, lo + 1, hi, last)
  }

  /** The code to look for, when what was typed has the shape of one. */
  function Wanted(code: string): Option<string> {
    if WellFormed(code) then Some(Presented(code)) else None
  }

  /** What is typed is a code when, spaces and surrounding whitespace aside, it is six digits; and then it is those. */
  lemma WantedTyped(pre: string, typed: string, post: string)
    requires forall c :: c in pre + post ==> IsSpace(c)
    requires forall c :: c in typed && IsSpace(c) ==> c == ' '
    ensures var digits := Remove(typed, ' ');
      Wanted(pre + typed + post) == if AllDigits(digits) && |digits| == 6 then Some(digits) else None
  {
    CleanedSurround(pre, typed, post);
  }

  function Answer(codes: Codes, wanted: Option<string>, current: int, drift: nat, last: Option<int>)
    : Result<Option<int>, Error>
  {
    if wanted == None then Success(None) else Scan(codes, wanted.value, current - drift, current + drift + 1, last)
  }

  function Verified(sha1: HmacSha1, secret: string, code: string, now: real, last: Option<int>, drift: nat)
    : Result<Option<int>, Error>
  {
    Answer(CodesOf(sha1, secret), Wanted(code), Timestep(now), drift, last)
  }

  method Verify(sha1: HmacSha1, secret: string, code: string, now: real, last: Option<int>, drift: nat)
    returns (r: Result<Option<int>, Error>)
    ensures r == Verified(sha1, secret, code, now, last, drift)
  {
    var cleaned := Presented(code);
    if !(AllDigits(cleaned) && |cleaned| == DIGITS) {
      return Success(None);
    }
    r := TryWindow(CodesOf(sha1, secret), cleaned, Timestep(now), drift, last);
  }

  /** The drift-window loop. */
  method TryWindow(codes: Codes, wanted: string, current: int, drift: nat, last: Option<int>)
    returns (r: Result<Option<int>, Error>)
    ensures r == Answer(codes, Some(wanted), current, drift, last)
  {
    for step := current - drift to current + drift + 1
      invariant Answer(codes, Some(wanted), current, drift, last)
        == Scan(codes, wanted, step, current + drift + 1, last)
    {
      if !Unspent(step, last) {
        continue;
      }
      var expected := codes(step);
      if expected.Failure? {
        return Failure(expected.error);
      }
      if expected.value == wanted {
        return Success(Some(step));
      }
    }
    return Success(None);
  }

  predicate InWindow(step: int, current: int, drift: nat) {
    current - drift <= step <= current + drift
  }

  lemma {:induction false} ScanIsLeast(codes: Codes, wanted: string, lo: int, hi: int, last: Option<int>)
    requires Scan(codes, wanted, lo, hi, last).Success?
    ensures match Scan(codes, wanted, lo, hi, last).value
      case Some(step) => lo <= step < hi && Unspent(step, last) && Matches(codes, wanted, step)
        && forall s :: lo <= s < step && Unspent(s, last) ==> !Matches(codes, wanted, s)
      case None => forall s :: lo <= s < hi && Unspent(s, last) ==> !Matches(codes, wanted, s)
    decreases hi - lo
  {
    if lo < hi && !(Unspent(lo, last) && Matches(codes, wanted, lo)) {
      ScanIsLeast(codes, wanted, lo + 1, hi, last);
    }
  }

  lemma {:induction false} ScanSucceeds(codes: Codes, wanted: string, lo: int, hi: int, last: Option<int>)
    requires forall s :: lo <= s < hi ==> codes(s).Success?
    ensures Scan(codes, wanted, lo, hi, last).Success?
    decreases hi - lo
  {
    if lo < hi {
      ScanSucceeds(codes, wanted, lo + 1, hi, last);
    }
  }

  /** `step` is the least unspent step of the window whose code is the wanted one. */
  ghost predicate IsLeastMatch(codes: Codes, wanted: string, current: int, drift: nat, last: Option<int>, step: int) {
    && InWindow(step, current, drift) && Unspent(step, last) && Matches(codes, wanted, step)
    && forall s :: InWindow(s, current, drift) && s < step && Unspent(s, last) ==> !Matches(codes, wanted, s)
  }

  ghost predicate NoMatch(codes: Codes, wanted: string, current: int, drift: nat, last: Option<int>) {
    forall s :: InWindow(s, current, drift) && Unspent(s, last) ==> !Matches(codes, wanted, s)
  }

  /** The least match, and nothing exactly when what was typed is malformed or matches no step. */
  ghost predicate LeastMatchOrNothing(codes: Codes, wanted: Option<string>, current: int, drift: nat, last: Option<int>,
                                      found: Option<int>)
  {
    match found
    case Some(step) => wanted.Some? && IsLeastMatch(codes, wanted.value, current, drift, last, step)
    case None => wanted.Some? ==> NoMatch(codes, wanted.value, current, drift, last)
  }

  lemma AnswerIsLeastMatch(codes: Codes, wanted: Option<string>, current: int, drift: nat, last: Option<int>)
    requires Answer(codes, wanted, current, drift, last).Success?
    ensures LeastMatchOrNothing(codes, wanted, current, drift, last, Answer(codes, wanted, current, drift, last).value)
  {
    if wanted.Some? {
      ScanIsLeast(codes, wanted.value, current - drift, current + drift + 1, last);
    }
  }

  lemma AnswerSucceeds(codes: Codes, wanted: Option<string>, current: int, drift: nat, last: Option<int>)
    requires forall s :: current - drift <= s < current + drift + 1 ==> codes(s).Success?
    ensures Answer(codes, wanted, current, drift, last).Success?
  {
    if wanted.Some? {
      ScanSucceeds(codes, wanted.value, current - drift, current + drift + 1, last);
    }
  }

  lemma HotpSucceeds(sha1: HmacSha1, secret: string, counter: int)
    requires DecodeSecret(secret).Some? && 0 <= counter < 0x1_0000_0000_0000_0000
    ensures CodesOf(sha1, secret)(counter).Success?
  {
  }

  /**
   * With a readable secret and counters in range, `verify` answers with the least unspent step of the window whose
   * code is the presented one, and with nothing exactly when the code is malformed or no such step exists.
   */
  lemma VerifiedIsLeastMatch(sha1: HmacSha1, secret: string, code: string, now: real, last: Option<int>, drift: nat)
    requires DecodeSecret(secret).Some?
    requires drift <= Timestep(now) < 0x1_0000_0000_0000_0000 - drift
    ensures Verified(sha1, secret, code, now, last, drift).Success?
    ensures LeastMatchOrNothing(CodesOf(sha1, secret), Wanted(code), Timestep(now), drift, last,
                                Verified(sha1, secret, code, now, last, drift).value)
  {
    var current := Timestep(now);
    forall s | current - drift <= s < current + drift + 1 ensures CodesOf(sha1, secret)(s).Success? {
      HotpSucceeds(sha1, secret, s);
    }
    AnswerSucceeds(CodesOf(sha1, secret), Wanted(code), current, drift, last);
    AnswerIsLeastMatch(CodesOf(sha1, secret), Wanted(code), current, drift, last);
  }

  /** The code an authenticator shows at an unspent step of the window is accepted, at that step or an earlier one. */
  lemma GenuineCodeAccepted(sha1: HmacSha1, secret: string, now: real, last: Option<int>, drift: nat, step: int)
    requires DecodeSecret(secret).Some?
    requires drift <= Timestep(now) < 0x1_0000_0000_0000_0000 - drift
    requires InWindow(step, Timestep(now), drift) && Unspent(step, last)
    ensures Hotp(sha1, secret, step).Success?
    ensures var r := Verified(sha1, secret, Hotp(sha1, secret, step).value, now, last, drift);
      r.Success? && r.value.Some? && r.value.value <= step
  {
    HotpSucceeds(sha1, secret, step);
    var code := Hotp(sha1, secret, step).value;
    CodeShape(sha1(DecodeSecret(secret).value, CounterOctets(step, 8)), DIGITS);
    PresentedDigits(code);
    assert Wanted(code) == Some(code);
    assert Matches(CodesOf(sha1, secret), code, step);
    VerifiedIsLeastMatch(sha1, secret, code, now, last, drift);
  }

  lemma {:induction false} PresentedDigits(code: string)
    requires AllDigits(code)
    ensures Presented(code) == code
  {
    assert !IsSpace(code[0]) && !IsSpace(code[|code| - 1]);
    assert Strip(code) == code;
    RemoveAbsent(code, ' ');
  }

  // ---- whole runs: the caller stores what was spent ----

  datatype Attempt = Attempt(code: string, now: real)

  /** The step a request accepts, having read `seen` as the last one spent. */
  function AcceptedStep(codes: Codes, seen: Option<int>, attempt: Attempt): Option<int> {
    match Answer(codes, Wanted(attempt.code), Timestep(attempt.now), DRIFT_STEPS, seen)
    case Success(step) => step
    case Failure(_) => None
  }

  /** A request accepts the code an authenticator shows now, one step ago or one step ahead, unless it was spent. */
  lemma AdjacentCodeAccepted(sha1: HmacSha1, secret: string, now: real, seen: Option<int>, step: int)
    requires DecodeSecret(secret).Some? && 1 <= Timestep(now) < 0xffff_ffff_ffff_ffff
    requires Timestep(now) - 1 <= step <= Timestep(now) + 1 && Unspent(step, seen)
    ensures Hotp(sha1, secret, step).Success?
    ensures AcceptedStep(CodesOf(sha1, secret), seen, Attempt(Hotp(sha1, secret, step).value, now)).Some?
  {
    GenuineCodeAccepted(sha1, secret, now, seen, DRIFT_STEPS, step);
  }

  /**
   * `user_mfa_credentials`, as `mfa_service.verify_code` uses it: the row is read without a lock, the code checked
   * against what was read, and the step written without a guard.
   */
  class Credential {
    const secret: string
    var lastUsedStep: Option<int>

    constructor (secret: string)
      ensures this.secret == secret && lastUsedStep == None
    {
      this.secret := secret;
      lastUsedStep := None;
    }

    method ReadStep() returns (seen: Option<int>)
      ensures seen == lastUsedStep
    {
      seen := lastUsedStep;
    }

    /** The step is written before the code is reported good; a refusal or an error leaves it alone. */
    method SpendStep(sha1: HmacSha1, seen: Option<int>, attempt: Attempt) returns (r: Result<bool, Error>)
      modifies this
      ensures var v := Verified(sha1, secret, attempt.code, attempt.now, seen, DRIFT_STEPS);
        r == (match v case Success(step) => Success(step.Some?) case Failure(e) => Failure(e))
      ensures var step := AcceptedStep(CodesOf(sha1, secret), seen, attempt);
        lastUsedStep == if step.Some? then step else old(lastUsedStep)
    {
      var v := Verify(sha1, secret, attempt.code, attempt.now, seen, DRIFT_STEPS);
      if v.Failure? {
        return Failure(v.error);
      }
      if v.value == None {
        return Success(false);
      }
      lastUsedStep := v.value;
      return Success(true);
    }

    /** One request on its own. */
    method VerifyCode(sha1: HmacSha1, attempt: Attempt) returns (r: Result<bool, Error>)
      modifies this
      ensures var v := Verified(sha1, secret, attempt.code, attempt.now, old(lastUsedStep), DRIFT_STEPS);
        r == (match v case Success(step) => Success(step.Some?) case Failure(e) => Failure(e))
      ensures var step := AcceptedStep(CodesOf(sha1, secret), old(lastUsedStep), attempt);
        lastUsedStep == if step.Some? then step else old(lastUsedStep)
    {
      var seen := ReadStep();
      r := SpendStep(sha1, seen, attempt);
    }
  }

  // ---- requests that overlap ----

  /** A request reads the stored step, and later checks its code against what it read and stores what it spends. */
  datatype Event = Read(request: int) | Spend(request: int)

  /** The stored step, and what each request between its read and its spend has seen. */
  datatype Desk = Desk(last: Option<int>, seen: map<int, Option<int>>)

  function AcceptedAt(codes: Codes, d: Desk, e: Event, attempt: Attempt): Option<int> {
    if e.Spend? && e.request in d.seen then AcceptedStep(codes, d.seen[e.request], attempt) else None
  }

  function Next(codes: Codes, d: Desk, e: Event, attempt: Attempt): Desk {
    match e
    case Read(r) => Desk(d.last, d.seen[r := d.last])
    case Spend(r) =>
      var step := AcceptedAt(codes, d, e, attempt);
      Desk(if step.Some? then step else d.last, d.seen - {r})
  }

  /** The steps accepted over a run, in order; `attempts[i]` is what the request of a spend at `i` presents. */
  function Accepted(codes: Codes, d: Desk, events: seq<Event>, attempts: seq<Attempt>): seq<int>
    requires |events| == |attempts|
    decreases |events|
  {
    if events == [] then []
    else
      var rest := Accepted(codes, Next(codes, d, events[0], attempts[0]), events[1..], attempts[1..]);
      match AcceptedAt(codes, d, events[0], attempts[0])
      case Some(step) => [step] + rest
      case None => rest
  }

  /**
   * No request spends after another one spent between its read and its spend. `current` are the requests whose read is
   * up to date, `stale` those overtaken since.
   */
  predicate Serial(events: seq<Event>, current: set<int>, stale: set<int>) {
    if events == [] then true
    else match events[0]
      case Read(r) => Serial(events[1..], current + {r}, stale - {r})
      case Spend(r) =>
        if r in stale then false
        else if r in current then Serial(events[1..], {}, stale + current - {r})
        else Serial(events[1..], current, stale)
  }

  predicate Increasing(steps: seq<int>) {
    forall i, j :: 0 <= i < j < |steps| ==> steps[i] < steps[j]
  }

  /** The step lies in the drift window of one of the attempts. */
  predicate InSomeWindow(step: int, attempts: seq<Attempt>) {
    exists i :: 0 <= i < |attempts| && InWindow(step, Timestep(attempts[i].now), DRIFT_STEPS)
  }

  lemma WindowInTail(step: int, attempts: seq<Attempt>)
    requires attempts != [] && InSomeWindow(step, attempts[1..])
    ensures InSomeWindow(step, attempts)
  {
    var i :| 0 <= i < |attempts| - 1 && InWindow(step, Timestep(attempts[1..][i].now), DRIFT_STEPS);
    assert attempts[i + 1] == attempts[1..][i];
  }

  lemma AcceptedIsUnspent(codes: Codes, seen: Option<int>, attempt: Attempt)
    requires AcceptedStep(codes, seen, attempt).Some?
    ensures var step := AcceptedStep(codes, seen, attempt).value;
      Unspent(step, seen) && InWindow(step, Timestep(attempt.now), DRIFT_STEPS)
  {
    AnswerIsLeastMatch(codes, Wanted(attempt.code), Timestep(attempt.now), DRIFT_STEPS, seen);
  }

  /** The requests in `current` have seen the stored step, and nobody else has read without being in `stale`. */
  predicate UpToDate(d: Desk, current: set<int>, stale: set<int>) {
    forall r :: r in d.seen && r !in stale ==> r in current && d.seen[r] == d.last
  }

  /**
   * Over every serial run, at whatever times and with whatever codes, the accepted steps strictly increase past the
   * one already stored, so none is ever accepted twice; and each lies in the drift window of some attempt.
   */
  lemma {:induction false} AcceptedIncrease(codes: Codes, d: Desk, events: seq<Event>, attempts: seq<Attempt>,
                                            current: set<int>, stale: set<int>)
    requires |events| == |attempts| && Serial(events, current, stale) && UpToDate(d, current, stale)
    ensures var steps := Accepted(codes, d, events, attempts);
      && Increasing(steps)
      && (forall i :: 0 <= i < |steps| ==> Unspent(steps[i], d.last))
      && forall i :: 0 <= i < |steps| ==> InSomeWindow(steps[i], attempts)
    decreases |events|
  {
    if events != [] {
      var e := events[0];
      var next := Next(codes, d, e, attempts[0]);
      var rest := Accepted(codes, next, events[1..], attempts[1..]);
      match e {
        case Read(r) =>
          AcceptedIncrease(codes, next, events[1..], attempts[1..], current + {r}, stale - {r});
        case Spend(r) =>
          if r in current {
            AcceptedIncrease(codes, next, events[1..], attempts[1..], {}, stale + current - {r});
          } else {
            AcceptedIncrease(codes, next, events[1..], attempts[1..], current, stale);
          }
      }
      forall i | 0 <= i < |rest| ensures InSomeWindow(rest[i], attempts) {
        WindowInTail(rest[i], attempts);
      }
      if AcceptedAt(codes, d, e, attempts[0]).Some? {
        AcceptedIsUnspent(codes, d.seen[e.request], attempts[0]);
        assert InSomeWindow(AcceptedAt(codes, d, e, attempts[0]).value, attempts);
      }
    }
  }

  lemma {:induction false} IncreasingWithin(steps: seq<int>, lo: int, hi: int)
    requires Increasing(steps) && lo <= hi + 1
    requires forall i :: 0 <= i < |steps| ==> lo <= steps[i] <= hi
    ensures |steps| <= hi - lo + 1
  {
    if steps != [] {
      IncreasingWithin(steps[1..], steps[0] + 1, hi);
    }
  }

  lemma TimestepMonotone(a: real, b: real)
    requires a <= b
    ensures Timestep(a) <= Timestep(b)
  {
    assert Truncate(a) <= Truncate(b);
  }

  /** However many codes are tried between two moments, a serial run accepts only a bounded number. */
  lemma AcceptancesBounded(codes: Codes, d: Desk, events: seq<Event>, attempts: seq<Attempt>, a: real, b: real)
    requires |events| == |attempts| && Serial(events, {}, {}) && d.seen == map[]
    requires a <= b && forall i :: 0 <= i < |attempts| ==> a <= attempts[i].now <= b
    ensures |Accepted(codes, d, events, attempts)| <= Timestep(b) - Timestep(a) + 3
  {
    var steps := Accepted(codes, d, events, attempts);
    AcceptedIncrease(codes, d, events, attempts, {}, {});
    forall i | 0 <= i < |steps| ensures Timestep(a) - DRIFT_STEPS <= steps[i] <= Timestep(b) + DRIFT_STEPS {
      var k :| 0 <= k < |attempts| && InWindow(steps[i], Timestep(attempts[k].now), DRIFT_STEPS);
      TimestepMonotone(a, attempts[k].now);
      TimestepMonotone(attempts[k].now, b);
    }
    TimestepMonotone(a, b);
    IncreasingWithin(steps, Timestep(a) - DRIFT_STEPS, Timestep(b) + DRIFT_STEPS);
  }

  // ---- the one-time rule holds exactly for serial schedules ----

  predicate NoRepeats(steps: seq<int>) {
    forall i, j :: 0 <= i < j < |steps| ==> steps[i] != steps[j]
  }

  /** Whatever the requests of this schedule present, no step is accepted twice. */
  ghost predicate OneTime(codes: Codes, last: Option<int>, events: seq<Event>) {
    forall attempts :: |attempts| == |events| ==> NoRepeats(Accepted(codes, Desk(last, map[]), events, attempts))
  }

  /** Some request of `overtaken` spends before it reads again. */
  predicate Hits(events: seq<Event>, overtaken: set<int>) {
    if events == [] then false
    else match events[0]
      case Read(r) => Hits(events[1..], overtaken - {r})
      case Spend(r) => r in overtaken || Hits(events[1..], overtaken)
  }

  lemma {:induction false} SerialUnlessHit(events: seq<Event>, current: set<int>, stale: set<int>, more: set<int>)
    requires Serial(events, current, stale) && !Hits(events, more)
    ensures Serial(events, current, stale + more)
  {
    if events != [] {
      match events[0]
      case Read(r) =>
        SerialUnlessHit(events[1..], current + {r}, stale - {r}, more - {r});
        assert (stale - {r}) + (more - {r}) == (stale + more) - {r};
      case Spend(r) =>
        if r in current {
          SerialUnlessHit(events[1..], {}, stale + current - {r}, more);
          assert (stale + current - {r}) + more == (stale + more) + current - {r};
        } else {
          SerialUnlessHit(events[1..], current, stale, more);
        }
    }
  }

  /** A code nobody can have generated. */
  const MALFORMED := Attempt([], 0.0)

  lemma MalformedIsRefused(codes: Codes, seen: Option<int>)
    ensures AcceptedStep(codes, seen, MALFORMED) == None
  {
    assert Presented([]) == [];
  }

  /** Everybody presents a malformed code, until an overtaken request presents the good one. */
  lemma {:induction false} AcceptedAgain(codes: Codes, d: Desk, events: seq<Event>, overtaken: set<int>,
                                         good: Attempt, seen: Option<int>, step: int) returns (attempts: seq<Attempt>)
    requires Hits(events, overtaken) && AcceptedStep(codes, seen, good) == Some(step)
    requires forall r :: r in overtaken ==> r in d.seen && d.seen[r] == seen
    ensures |attempts| == |events| && step in Accepted(codes, d, events, attempts)
    decreases |events|
  {
    var e := events[0];
    if e.Spend? && e.request in overtaken {
      attempts := [good] + seq(|events| - 1, _ => MALFORMED);
      assert Accepted(codes, d, events, attempts)[0] == step;
    } else {
      var left := if e.Read? then overtaken - {e.request} else overtaken;
      if e.Spend? && e.request in d.seen {
        MalformedIsRefused(codes, d.seen[e.request]);
      }
      var rest := AcceptedAgain(codes, Next(codes, d, e, MALFORMED), events[1..], left, good, seen, step);
      attempts := [MALFORMED] + rest;
      assert attempts[1..] == rest;
    }
  }

  /** A schedule that is not serial: the good code is presented twice and accepted twice. */
  lemma {:induction false} AcceptedTwice(codes: Codes, d: Desk, events: seq<Event>, current: set<int>, good: Attempt,
                                         step: int) returns (attempts: seq<Attempt>)
    requires !Serial(events, current, {}) && AcceptedStep(codes, d.last, good) == Some(step)
    requires forall r :: r in current ==> r in d.seen && d.seen[r] == d.last
    ensures |attempts| == |events| && !NoRepeats(Accepted(codes, d, events, attempts))
    decreases |events|
  {
    var e := events[0];
    if e.Spend? && e.request in current && Hits(events[1..], current - {e.request}) {
      var rest := AcceptedAgain(codes, Next(codes, d, e, good), events[1..], current - {e.request}, good, d.last, step);
      attempts := [good] + rest;
      assert attempts[1..] == rest;
      var steps := Accepted(codes, d, events, attempts);
      var later := Accepted(codes, Next(codes, d, e, good), events[1..], rest);
      assert steps == [step] + later;
      var i :| 0 <= i < |later| && later[i] == step;
      assert steps[0] == steps[i + 1];
    } else {
      var next := Next(codes, d, e, MALFORMED);
      var left := if e.Read? then current + {e.request} else if e.request in current then {} else current;
      if e.Spend? {
        if e.request in d.seen {
          MalformedIsRefused(codes, d.seen[e.request]);
        }
        if e.request in current && Serial(events[1..], {}, {}) {
          assert {} + (current - {e.request}) == {} + current - {e.request};
          SerialUnlessHit(events[1..], {}, {}, current - {e.request});
        }
      } else {
        var none: set<int> := {};
        assert none - {e.request} == none;
      }
      var rest := AcceptedTwice(codes, next, events[1..], left, good, step);
      attempts := [MALFORMED] + rest;
      assert attempts[1..] == rest;
    }
  }

  /**
   * The one-time rule, exactly. As long as some code would be accepted at all, no step can be accepted twice, whatever
   * the requests present, if and only if no request spends after another spent between its read and its spend.
   */
  lemma OneTimeIffSerial(codes: Codes, last: Option<int>, events: seq<Event>, good: Attempt)
    requires AcceptedStep(codes, last, good).Some?
    ensures OneTime(codes, last, events) <==> Serial(events, {}, {})
  {
    var d := Desk(last, map[]);
    if Serial(events, {}, {}) {
      forall attempts | |attempts| == |events| ensures NoRepeats(Accepted(codes, d, events, attempts)) {
        AcceptedIncrease(codes, d, events, attempts, {}, {});
      }
    } else {
      var attempts := AcceptedTwice(codes, d, events, {}, good, AcceptedStep(codes, last, good).value);
    }
  }

  /** The run in which it fails: two requests read before either spends, and one code is accepted twice. */
  lemma OverlapExample(codes: Codes, last: Option<int>, good: Attempt)
    requires AcceptedStep(codes, last, good).Some?
    ensures var step := AcceptedStep(codes, last, good).value;
      Accepted(codes, Desk(last, map[]), [Read(1), Read(2), Spend(1), Spend(2)], [good, good, good, good]) == [step, step]
  {
    var step := AcceptedStep(codes, last, good);
    var both := Desk(last, map[1 := last, 2 := last]);
    var one := Desk(step, map[2 := last]);
    assert both.seen - {1} == one.seen && one.seen - {2} == map[];
    ReadFirst(codes, Desk(last, map[]), 1, [Read(2), Spend(1), Spend(2)], [good, good, good], good);
    ReadFirst(codes, Desk(last, map[1 := last]), 2, [Spend(1), Spend(2)], [good, good], good);
    assert map[1 := last][2 := last] == both.seen && map[][1 := last] == map[1 := last];
    assert [Spend(1), Spend(2)][1..] == [Spend(2)] && [good, good][1..] == [good];
    assert [Spend(2)][1..] == [] && [good][1..] == [];
    assert Accepted(codes, one, [Spend(2)], [good]) == [step.value];
    assert Accepted(codes, both, [Spend(1), Spend(2)], [good, good]) == [step.value] + [step.value];
  }

  lemma ReadFirst(codes: Codes, d: Desk, r: int, events: seq<Event>, attempts: seq<Attempt>, any: Attempt)
    requires |events| == |attempts|
    ensures Accepted(codes, d, [Read(r)] + events, [any] + attempts)
      == Accepted(codes, Desk(d.last, d.seen[r := d.last]), events, attempts)
  {
    assert ([Read(r)] + events)[1..] == events && ([any] + attempts)[1..] == attempts;
  }
}
