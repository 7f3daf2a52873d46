/** Compact JSON objects with integer members, the only JSON a session token carries. */
module Json {
  import opened Nulls
  import opened Text
  import opened Decimal

  type Claims = seq<(string, int)>

  function Member(claim: (string, int)): string {
    ['"'] + claim.0 + ['"', ':'] + PrintInt(claim.1)
  }

  function Members(claims: Claims): string
    requires claims != []
  {
    if |claims| == 1 then Member(claims[0]) else Member(claims[0]) + [','] + Members(claims[1..])
  }

  /** `json.dumps(claims, separators=(",", ":"))`; a dict prints in insertion order. */
  function Dumps(claims: Claims): string {
    if claims == [] then ['{', '}'] else ['{'] + Members(claims) + ['}']
  }

  predicate InNumber(c: char) {
    IsDigit(c) || c == '-'
  }

  /** The longest number-like prefix, and what follows it. */
  function NumberToken(s: string): (r: (string, string))
    ensures s == r.0 + r.1
  {
    if s == [] || !InNumber(s[0]) then ([], s)
    else var (token, rest) := NumberToken(s[1..]); ([s[0]] + token, rest)
  }

  /** A JSON integer: no leading zeros. */
  function ReadNumber(token: string): Option<int> {
    var digits := if token != [] && token[0] == '-' then token[1..] else token;
    if |digits| > 1 && digits[0] == '0' then None else ParseInt(token)
  }

  /** Reads `"key":number`; yields the key, the number and what follows. */
  function ReadMember(s: string): (r: Option<(string, int, string)>)
    ensures r.Some? ==> |r.value.2| < |s|
  {
    if s == [] || s[0] != '"' then None
    else match SplitFirst(s[1..], '"')
      case None => None
      case Some((key, rest)) =>
        if '\\' in key || rest == [] || rest[0] != ':' then None
        else
          var (token, tail) := NumberToken(rest[1..]);
          match ReadNumber(token)
          case None => None
          case Some(v) => Some((key, v, tail))
  }

  /** Reads members up to the closing brace; as in a dict, a repeated key keeps its last value. */
  function ReadMembers(s: string, seen: map<string, int>): Option<map<string, int>>
    decreases |s|
  {
    match ReadMember(s)
    case None => None
    case Some((key, v, tail)) =>
      if tail == ['}'] then Some(seen[key := v])
      else if tail != [] && tail[0] == ',' then ReadMembers(tail[1..], seen[key := v])
      else None
  }

  /** `json.loads` restricted to objects of integers without whitespace or escapes; `None` is any other text. */
  function Loads(s: string): Option<map<string, int>> {
    if s == ['{', '}'] then Some(map[])
    else if s == [] || s[0] != '{' then None
    else ReadMembers(s[1..], map[])
  }

  predicate PlainKeys(claims: Claims) {
    forall i :: 0 <= i < |claims| ==> '"' !in claims[i].0 && '\\' !in claims[i].0
  }

  /** The dict that results from setting the claims one by one. */
  function Collect(claims: Claims, seen: map<string, int>): map<string, int> {
    if claims == [] then seen else Collect(claims[1..], seen[claims[0].0 := claims[0].1])
  }

  lemma {:induction false} NumberTokenOf(token: string, tail: string)
    requires forall i :: 0 <= i < |token| ==> InNumber(token[i])
    requires tail == [] || !InNumber(tail[0])
    ensures NumberToken(token + tail) == (token, tail)
  {
    if token == [] {
      assert token + tail == tail;
    } else {
      assert (token + tail)[1..] == token[1..] + tail;
      NumberTokenOf(token[1..], tail);
      assert [token[0]] + token[1..] == token;
    }
  }

  lemma ReadPrintedNumber(n: int, tail: string)
    requires tail == [] || !InNumber(tail[0])
    ensures NumberToken(PrintInt(n) + tail) == (PrintInt(n), tail)
    ensures ReadNumber(PrintInt(n)) == Some(n)
  {
    ParsePrinted(n);
    ValueOfPrint(if n < 0 then -n else n);
    if n < 0 {
      assert PrintInt(n)[1..] == Print(-n);
    }
    NumberTokenOf(PrintInt(n), tail);
  }

  lemma ReadPrintedMember(key: string, v: int, tail: string)
    requires '"' !in key && '\\' !in key && tail != [] && !InNumber(tail[0])
    ensures ReadMember(Member((key, v)) + tail) == Some((key, v, tail))
  {
    var s := Member((key, v)) + tail;
    var rest := [':'] + (PrintInt(v) + tail);
    assert s[1..] == key + ['"'] + rest;
    SplitFirstAt(key, '"', rest);
    assert rest[1..] == PrintInt(v) + tail;
    ReadPrintedNumber(v, tail);
  }

  lemma ReadLastMember(claim: (string, int), seen: map<string, int>)
    requires '"' !in claim.0 && '\\' !in claim.0
    ensures ReadMembers(Member(claim) + ['}'], seen) == Some(seen[claim.0 := claim.1])
  {
    ReadPrintedMember(claim.0, claim.1, ['}']);
  }

  lemma ReadNextMember(claim: (string, int), more: string, seen: map<string, int>)
    requires '"' !in claim.0 && '\\' !in claim.0
    ensures ReadMembers(Member(claim) + ([','] + more), seen) == ReadMembers(more, seen[claim.0 := claim.1])
  {
    ReadPrintedMember(claim.0, claim.1, [','] + more);
    assert ([','] + more)[1..] == more;
  }

  lemma MembersOfMany(claims: Claims)
    requires |claims| > 1
    ensures Members(claims) + ['}'] == Member(claims[0]) + ([','] + (Members(claims[1..]) + ['}']))
  {
    ConcatRight(Member(claims[0]), [','], Members(claims[1..]), ['}']);
  }

  lemma ConcatRight(a: string, b: string, c: string, d: string)
    ensures a + b + c + d == a + (b + (c + d))
  {
  }

  lemma {:induction false} ReadPrintedMembers(claims: Claims, seen: map<string, int>)
    requires claims != [] && PlainKeys(claims)
    ensures ReadMembers(Members(claims) + ['}'], seen) == Some(Collect(claims, seen))
  {
    var claim := claims[0];
    if |claims| == 1 {
      ReadLastMember(claim, seen);
      assert Collect(claims[1..], seen[claim.0 := claim.1]) == seen[claim.0 := claim.1];
    } else {
      var more := Members(claims[1..]) + ['}'];
      MembersOfMany(claims);
      ReadNextMember(claim, more, seen);
      ReadPrintedMembers(claims[1..], seen[claim.0 := claim.1]);
    }
  }

  /** Reading a printed dict gives the dict back. */
  lemma LoadsDumps(claims: Claims)
    requires PlainKeys(claims)
    ensures Loads(Dumps(claims)) == Some(Collect(claims, map[]))
  {
    if claims != [] {
      var s := Dumps(claims);
      assert s[1..] == Members(claims) + ['}'];
      assert s[1] == '"';
      ReadPrintedMembers(claims, map[]);
    }
  }

  // ---- what is read is what would be printed ----

  /** A member as written: its key and the text of its number. */
  type Written = seq<(string, string)>

  function MemberText(member: (string, string)): string {
    ['"'] + member.0 + ['"', ':'] + member.1
  }

  function MembersText(members: Written): string
    requires members != []
  {
    if |members| == 1 then MemberText(members[0])
    else MemberText(members[0]) + ([','] + MembersText(members[1..]))
  }

  /** An integer as printed, or `-0`. */
  predicate IsNumber(token: string, v: int) {
    token == PrintInt(v) || (token == ['-', '0'] && v == 0)
  }

  lemma ReadNumberIs(token: string)
    requires ReadNumber(token).Some?
    ensures IsNumber(token, ReadNumber(token).value)
  {
    if AllDigits(token) {
      PrintOfValue(token);
    } else {
      var digits := token[1..];
      PrintOfValue(digits);
      assert token == ['-'] + digits;
      if Value(digits) == 0 {
        assert |digits| == 1;
      }
    }
  }

  predicate WellWritten(members: Written, claims: Claims) {
    |members| == |claims|
    && forall i :: 0 <= i < |members| ==>
      '"' !in claims[i].0 && members[i].0 == claims[i].0 && IsNumber(members[i].1, claims[i].1)
  }

  lemma ReadMemberIs(s: string) returns (token: string)
    requires ReadMember(s).Some?
    ensures var (key, v, tail) := ReadMember(s).value;
      '"' !in key && IsNumber(token, v) && s == MemberText((key, token)) + tail
  {
    var (key, rest) := SplitFirst(s[1..], '"').value;
    token := NumberToken(rest[1..]).0;
    ReadNumberIs(token);
    Reassembled(s, key, rest, token, NumberToken(rest[1..]).1);
  }

  lemma Reassembled(s: string, key: string, rest: string, token: string, tail: string)
    requires s != [] && s[0] == '"' && s[1..] == key + ['"'] + rest
    requires rest != [] && rest[0] == ':' && rest[1..] == token + tail
    ensures s == MemberText((key, token)) + tail
  {
    assert rest == [':'] + (token + tail);
    assert s == ['"'] + (key + ['"'] + rest);
  }

  lemma {:induction false} ReadMembersAre(s: string, seen: map<string, int>)
    returns (members: Written, claims: Claims)
    requires ReadMembers(s, seen).Some?
    ensures members != [] && WellWritten(members, claims)
    ensures s == MembersText(members) + ['}'] && ReadMembers(s, seen) == Some(Collect(claims, seen))
    decreases |s|
  {
    var token := ReadMemberIs(s);
    var (key, v, tail) := ReadMember(s).value;
    if tail == ['}'] {
      members, claims := [(key, token)], [(key, v)];
      CollectMore((key, v), [], seen);
      assert [(key, v)] + [] == [(key, v)];
    } else {
      var more, rest := ReadMembersAre(tail[1..], seen[key := v]);
      members, claims := [(key, token)] + more, [(key, v)] + rest;
      CollectMore((key, v), rest, seen);
      WrittenMore((key, token), v, more, rest);
      assert tail == [','] + tail[1..];
      MoreMembers((key, token), more);
    }
  }

  lemma WrittenMore(first: (string, string), v: int, more: Written, rest: Claims)
    requires '"' !in first.0 && IsNumber(first.1, v) && WellWritten(more, rest)
    ensures WellWritten([first] + more, [(first.0, v)] + rest)
  {
  }

  lemma CollectMore(first: (string, int), rest: Claims, seen: map<string, int>)
    ensures Collect([first] + rest, seen) == Collect(rest, seen[first.0 := first.1])
  {
    assert ([first] + rest)[1..] == rest;
  }

  lemma MoreMembers(first: (string, string), more: Written)
    requires more != []
    ensures MemberText(first) + ([','] + (MembersText(more) + ['}'])) == MembersText([first] + more) + ['}']
  {
    assert ([first] + more)[1..] == more;
  }

  /** Only the compact text of a dict is read as a dict, and as that dict: nothing looser, but `-0` for `0`. */
  lemma LoadsIsExact(s: string) returns (members: Written, claims: Claims)
    requires Loads(s).Some?
    ensures WellWritten(members, claims) && Loads(s) == Some(Collect(claims, map[]))
    ensures s == if members == [] then ['{', '}'] else ['{'] + MembersText(members) + ['}']
  {
    if s == ['{', '}'] {
      members, claims := [], [];
    } else {
      members, claims := ReadMembersAre(s[1..], map[]);
      Braced(s, MembersText(members));
    }
  }

  lemma Braced(s: string, inner: string)
    requires s != [] && s[0] == '{' && s[1..] == inner + ['}']
    ensures s == ['{'] + inner + ['}']
  {
  }

  predicate Ascii(s: string) {
    forall i :: 0 <= i < |s| ==> s[i] < 128 as char
  }

  lemma {:induction false} MembersAscii(claims: Claims)
    requires claims != [] && forall i :: 0 <= i < |claims| ==> Ascii(claims[i].0)
    ensures Ascii(Members(claims))
  {
    var v := claims[0].1;
    ValueOfPrint(if v < 0 then -v else v);
    assert Ascii(Member(claims[0]));
    if |claims| > 1 {
      MembersAscii(claims[1..]);
    }
  }
}

/** `ccf.auth`: signed session tokens and stored password hashes. */
module Auth {
  import opened Nulls
  import opened Text
  import opened Decimal
  import opened Json
  import opened BitGroups
  import Base64Url

  /** The hex digest of an HMAC, as a function of the key and the message; nothing is assumed about its values. */
  type Mac = (string, string) -> string

  function AsciiBytes(s: string): (b: seq<byte>)
    requires Ascii(s)
    ensures |b| == |s| && forall i :: 0 <= i < |s| ==> b[i] == s[i] as int
  {
    seq(|s|, i requires 0 <= i < |s| => s[i] as int)
  }

  function AsciiText(b: seq<byte>): Option<string> {
    if forall i :: 0 <= i < |b| ==> b[i] < 128
    then Some(seq(|b|, i requires 0 <= i < |b| => b[i] as char))
    else None
  }

  lemma AsciiRoundTrip(s: string)
    requires Ascii(s)
    ensures AsciiText(AsciiBytes(s)) == Some(s)
  {
    var text := AsciiText(AsciiBytes(s)).value;
    forall i | 0 <= i < |s| ensures text[i] == s[i] {
      assert AsciiBytes(s)[i] == s[i] as int;
    }
    assert text == s;
  }

  function Expiry(ttlHours: int, now: real): int {
    Truncate(now) + ttlHours * 3600
  }

  predicate Live(exp: int, now: real) {
    !(exp as real < now)
  }

  function SessionClaims(uid: int, version: int, exp: int): Claims {
    [("uid", uid), ("exp", exp)] + if version != 0 then [("sv", version)] else []
  }

  lemma ClaimsAscii(uid: int, version: int, exp: int)
    ensures Ascii(Dumps(SessionClaims(uid, version, exp)))
  {
    MembersAscii(SessionClaims(uid, version, exp));
  }

  function Payload(uid: int, version: int, exp: int): (payload: string)
    ensures '.' !in payload
  {
    ClaimsAscii(uid, version, exp);
    var payload := Unpadded(Base64Url.Encode(AsciiBytes(Dumps(SessionClaims(uid, version, exp)))));
    Base64Url.UnpaddedEncoding(AsciiBytes(Dumps(SessionClaims(uid, version, exp))));
    payload
  }

  function SignSession(mac: Mac, uid: int, secret: string, ttlHours: int, version: int, now: real): string {
    var payload := Payload(uid, version, Expiry(ttlHours, now));
    payload + ['.'] + mac(secret, payload)
  }

  /** The claims inside a payload, or `None` where the source catches a decoding error. */
  function ReadPayload(payload: string): Option<map<string, int>> {
    match Base64Url.Decode(Restore(payload, 4))
    case None => None
    case Some(bytes) =>
      match AsciiText(bytes)
      case None => None
      case Some(text) => Loads(text)
  }

  function Get(data: map<string, int>, key: string, default: int): int {
    if key in data then data[key] else default
  }

  function ReadSession(mac: Mac, token: string, secret: string, now: real): Option<(int, int)> {
    match SplitFirst(token, '.')
    case None => None
    case Some((payload, sig)) =>
      if sig != mac(secret, payload) then None
      else match ReadPayload(payload)
        case None => None
        case Some(data) =>
          if !Live(Get(data, "exp", 0), now) || "uid" !in data then None
          else Some((data["uid"], Get(data, "sv", 0)))
  }

  /** The dict a token carries, read back. */
  function Carried(uid: int, version: int, exp: int): (data: map<string, int>)
    ensures "uid" in data && data["uid"] == uid && Get(data, "exp", 0) == exp && Get(data, "sv", 0) == version
  {
    if version != 0 then map["uid" := uid, "exp" := exp, "sv" := version] else map["uid" := uid, "exp" := exp]
  }

  /** The claims survive printing, encoding, stripping, restoring, decoding and parsing. */
  lemma ReadMintedPayload(uid: int, version: int, exp: int)
    ensures ReadPayload(Payload(uid, version, exp)) == Some(Carried(uid, version, exp))
  {
    ClaimsAscii(uid, version, exp);
    ReadEncodedClaims(SessionClaims(uid, version, exp));
    CollectClaims(uid, version, exp);
  }

  lemma ReadEncodedClaims(claims: Claims)
    requires PlainKeys(claims) && Ascii(Dumps(claims))
    ensures ReadPayload(Unpadded(Base64Url.Encode(AsciiBytes(Dumps(claims))))) == Some(Collect(claims, map[]))
  {
    var bytes := AsciiBytes(Dumps(claims));
    Base64Url.UnpaddedEncoding(bytes);
    Base64Url.DecodeRestored(bytes);
    AsciiRoundTrip(Dumps(claims));
    LoadsDumps(claims);
  }

  lemma CollectClaims(uid: int, version: int, exp: int)
    ensures Collect(SessionClaims(uid, version, exp), map[]) == Carried(uid, version, exp)
  {
    var claims := SessionClaims(uid, version, exp);
    var tail := if version != 0 then [("sv", version)] else [];
    var seen := map["uid" := uid, "exp" := exp];
    assert claims[1..] == [("exp", exp)] + tail && claims[1..][1..] == tail;
    assert Collect(claims, map[]) == Collect(claims[1..], map["uid" := uid]) == Collect(tail, seen);
    if version != 0 {
      assert Collect(tail, seen) == Collect(tail[1..], seen["sv" := version]);
    }
  }

  lemma MemberIs(key: string, v: int)
    ensures Member((key, v)) == "\"" + key + "\":" + PrintInt(v)
  {
  }

  /** The JSON inside a token, member by member; a session version of zero is left out. */
  lemma ClaimsText(uid: int, version: int, exp: int)
    ensures var sv := if version == 0 then [] else [','] + Member(("sv", version));
      Dumps(SessionClaims(uid, version, exp)) == ['{'] + (Member(("uid", uid)) + [','] + (Member(("exp", exp)) + sv)) + ['}']
  {
    var u, e, v := ("uid", uid), ("exp", exp), ("sv", version);
    if version == 0 {
      assert SessionClaims(uid, version, exp) == [u, e] && [u, e][1..] == [e];
      assert Members([e]) == Member(e) && Member(e) + [] == Member(e);
      assert Members([u, e]) == Member(u) + [','] + (Member(e) + []);
    } else {
      assert SessionClaims(uid, version, exp) == [u, e, v] && [u, e, v][1..] == [e, v] && [e, v][1..] == [v];
      assert Members([e, v]) == Member(e) + [','] + Member(v) == Member(e) + ([','] + Member(v));
    }
  }

  /** Valid up to and including the second `ttlHours` hours after the whole second of minting. */
  predicate InLifetime(minted: real, ttlHours: int, now: real) {
    now <= (Truncate(minted) + 3600 * ttlHours) as real
  }

  /**
   * A token minted under one key, read under any key: it yields exactly the user and version it was minted for
   * when the two keys sign its payload alike and its hours have not passed, and nothing otherwise.
   */
  lemma ReadMintedUnder(mac: Mac, uid: int, secret: string, ttlHours: int, version: int, minted: real,
                        readerSecret: string, now: real)
    ensures var payload := Payload(uid, version, Expiry(ttlHours, minted));
      ReadSession(mac, SignSession(mac, uid, secret, ttlHours, version, minted), readerSecret, now)
      == if mac(secret, payload) == mac(readerSecret, payload) && InLifetime(minted, ttlHours, now)
         then Some((uid, version)) else None
  {
    var payload := Payload(uid, version, Expiry(ttlHours, minted));
    SplitFirstAt(payload, '.', mac(secret, payload));
    ReadMintedPayload(uid, version, Expiry(ttlHours, minted));
  }

  /** The round trip, in seconds: the user and version for exactly `ttlHours` hours, and nothing after. */
  lemma ReadSigned(mac: Mac, uid: int, secret: string, ttlHours: int, version: int, minted: real, now: real)
    ensures var read := ReadSession(mac, SignSession(mac, uid, secret, ttlHours, version, minted), secret, now);
      && (now <= (Truncate(minted) + ttlHours * 3600) as real ==> read == Some((uid, version)))
      && (now > (Truncate(minted) + ttlHours * 3600) as real ==> read == None)
  {
    ReadMintedUnder(mac, uid, secret, ttlHours, version, minted, secret, now);
  }

  /**
   * What an accepted token says: its payload is a dict that names the user, its expiry (0 if it has none) has not
   * passed, and the version is the one it names, or 0 if it names none.
   */
  lemma AcceptedIsLive(mac: Mac, token: string, secret: string, now: real)
    requires ReadSession(mac, token, secret, now).Some?
    ensures var data := ReadPayload(SplitFirst(token, '.').value.0);
      var (uid, version) := ReadSession(mac, token, secret, now).value;
      && data.Some? && "uid" in data.value && data.value["uid"] == uid
      && ("exp" in data.value ==> now <= data.value["exp"] as real) && ("exp" !in data.value ==> now <= 0.0)
      && ("sv" in data.value ==> version == data.value["sv"]) && ("sv" !in data.value ==> version == 0)
  {
  }

  /** Whatever is accepted is a payload followed by that payload's own signature, and nothing else. */
  lemma AcceptedIsSigned(mac: Mac, token: string, secret: string, now: real) returns (payload: string)
    requires ReadSession(mac, token, secret, now).Some?
    ensures '.' !in payload && token == payload + ['.'] + mac(secret, payload)
    ensures SplitFirst(token, '.').value.0 == payload
  {
    payload := SplitFirst(token, '.').value.0;
  }

  /** So a payload has one accepted token: no part of an accepted token can be altered and the rest kept. */
  lemma AcceptedTokenIsUnique(mac: Mac, token: string, other: string, secret: string, now: real, later: real)
    requires ReadSession(mac, token, secret, now).Some? && ReadSession(mac, other, secret, later).Some?
    requires SplitFirst(token, '.').value.0 == SplitFirst(other, '.').value.0
    ensures token == other
  {
    var payload := AcceptedIsSigned(mac, token, secret, now);
    var same := AcceptedIsSigned(mac, other, secret, later);
  }

  /** The check every request makes: the token names this user at the user's current session version. */
  predicate Authenticates(read: Option<(int, int)>, uid: int, sessionVersion: int) {
    read == Some((uid, sessionVersion))
  }

  /**
   * A session version only ever grows, by one per credential change or logout. One bump revokes every token
   * already issued, for good; without one a token lives until it expires.
   */
  lemma BumpRevokes(mac: Mac, uid: int, secret: string, ttlHours: int, version: int, minted: real, bumps: nat, now: real)
    ensures var token := SignSession(mac, uid, secret, ttlHours, version, minted);
      Authenticates(ReadSession(mac, token, secret, now), uid, version + bumps)
      <==> bumps == 0 && now <= (Truncate(minted) + ttlHours * 3600) as real
  {
    ReadSigned(mac, uid, secret, ttlHours, version, minted, now);
    OnlyCurrentVersion(ReadSession(mac, SignSession(mac, uid, secret, ttlHours, version, minted), secret, now),
                       uid, version, now <= (Truncate(minted) + ttlHours * 3600) as real, bumps);
  }

  lemma OnlyCurrentVersion(read: Option<(int, int)>, uid: int, version: int, live: bool, bumps: nat)
    requires read == if live then Some((uid, version)) else None
    ensures Authenticates(read, uid, version + bumps) <==> bumps == 0 && live
  {
  }

  // ---- half-finished logins (ccf.api.login_service) ----

  const PENDING_TTL_SECONDS := 300

  const PENDING_LABEL := "ccf-mfa-pending-v1"

  function PendingSecret(mac: Mac, base: string): string {
    mac(base, PENDING_LABEL)
  }

  function MintPending(mac: Mac, uid: int, base: string, version: int, now: real): string {
    PrintInt(Truncate(now)) + "." + SignSession(mac, uid, PendingSecret(mac, base), 1, version, now)
  }

  function ReadPending(mac: Mac, token: string, base: string, now: real): Option<(int, int)> {
    match SplitFirst(token, '.')
    case None => None
    case Some((stampText, inner)) =>
      match ParseInt(stampText)
      case None => None
      case Some(stamp) =>
        if now - stamp as real > PENDING_TTL_SECONDS as real || now + 1.0 < stamp as real then None
        else ReadSession(mac, inner, PendingSecret(mac, base), now)
  }

  lemma NumeralHasNoDot(n: int)
    ensures '.' !in PrintInt(n)
  {
    ValueOfPrint(if n < 0 then -n else n);
  }

  /** A pending token is good for its five minutes only, although the session inside it is signed for an hour. */
  lemma ReadMintedPending(mac: Mac, uid: int, base: string, version: int, minted: real, now: real)
    ensures ReadPending(mac, MintPending(mac, uid, base, version, minted), base, now)
      == if Truncate(minted) as real - 1.0 <= now <= (Truncate(minted) + 300) as real
         then Some((uid, version)) else None
  {
    NumeralHasNoDot(Truncate(minted));
    ParsePrinted(Truncate(minted));
    SplitFirstAt(PrintInt(Truncate(minted)), '.', SignSession(mac, uid, PendingSecret(mac, base), 1, version, minted));
    ReadSigned(mac, uid, PendingSecret(mac, base), 1, version, minted, now);
  }

  /** A pending token is signed with a key of its own, the digest of a fixed label under the session key. */
  lemma PendingText(mac: Mac, uid: int, base: string, version: int, now: real)
    ensures var payload := Payload(uid, version, Truncate(now) + 3600);
      MintPending(mac, uid, base, version, now)
      == PrintInt(Truncate(now)) + ['.'] + (payload + ['.'] + mac(mac(base, "ccf-mfa-pending-v1"), payload))
  {
  }

  /** Whatever is accepted as a pending token bears a recent stamp and that key's signature. */
  lemma AcceptedPendingIsSigned(mac: Mac, token: string, base: string, now: real) returns (stamp: string, payload: string)
    requires ReadPending(mac, token, base, now).Some?
    ensures '.' !in stamp && ParseInt(stamp).Some? && '.' !in payload
    ensures ParseInt(stamp).value as real - 1.0 <= now <= (ParseInt(stamp).value + 300) as real
    ensures token == stamp + ['.'] + (payload + ['.'] + mac(mac(base, "ccf-mfa-pending-v1"), payload))
  {
    stamp := SplitFirst(token, '.').value.0;
    payload := AcceptedIsSigned(mac, SplitFirst(token, '.').value.1, PendingSecret(mac, base), now);
  }

  /**
   * A pending token is not a session: presented as a session cookie, under any key, it is refused as long as
   * signatures contain no dot (a hex digest never does).
   */
  lemma PendingIsNotASession(mac: Mac, uid: int, base: string, version: int, minted: real, secret: string, now: real)
    requires '.' !in mac(secret, PrintInt(Truncate(minted)))
    ensures ReadSession(mac, MintPending(mac, uid, base, version, minted), secret, now) == None
  {
    var inner := SignSession(mac, uid, PendingSecret(mac, base), 1, version, minted);
    NumeralHasNoDot(Truncate(minted));
    SplitFirstAt(PrintInt(Truncate(minted)), '.', inner);
    var payload := Payload(uid, version, Expiry(1, minted));
    assert inner[|payload|] == '.';
  }

  // ---- stored passwords ----

  /** PBKDF2-HMAC-SHA256: password, salt and round count to a derived key. */
  type Kdf = (string, seq<byte>, int) -> seq<byte>

  const PBKDF2_ROUNDS := 210_000

  function HexDigit(v: nat): char
    requires v < 16
  {
    if v < 10 then DigitChar(v) else ('a' as int + (v - 10)) as char
  }

  function HexValue(c: char): Option<nat> {
    if IsDigit(c) then Some(DigitValue(c))
    else if 'a' <= c <= 'f' then Some(c as int - 'a' as int + 10)
    else if 'A' <= c <= 'F' then Some(c as int - 'A' as int + 10)
    else None
  }

  function Hex(bytes: seq<byte>): string {
    if bytes == [] then [] else [HexDigit(bytes[0] / 16), HexDigit(bytes[0] % 16)] + Hex(bytes[1..])
  }

  /** `bytes.fromhex`; `None` stands for its ValueError. */
  function FromHex(s: string): Option<seq<byte>> {
    if s == [] then Some([])
    else if |s| == 1 || HexValue(s[0]) == None || HexValue(s[1]) == None then None
    else match FromHex(s[2..])
      case None => None
      case Some(rest) =>
        var hi, lo: nat := HexValue(s[0]).value, HexValue(s[1]).value;
        HexValueBound(s[0]);
        HexValueBound(s[1]);
        Some([16 * hi + lo] + rest)
  }

  lemma HexValueBound(c: char)
    ensures HexValue(c).Some? ==> HexValue(c).value < 16
  {
  }

  lemma HexValueOf(v: nat)
    requires v < 16
    ensures HexValue(HexDigit(v)) == Some(v) && HexDigit(v) != '$'
  {
  }

  lemma {:induction false} FromHexHex(bytes: seq<byte>)
    ensures FromHex(Hex(bytes)) == Some(bytes)
    ensures '$' !in Hex(bytes)
  {
    if bytes != [] {
      var s := Hex(bytes);
      FromHexHex(bytes[1..]);
      assert s[2..] == Hex(bytes[1..]);
      HexValueOf(bytes[0] / 16);
      HexValueOf(bytes[0] % 16);
      assert 16 * (bytes[0] / 16) + bytes[0] % 16 == bytes[0];
      assert [bytes[0]] + bytes[1..] == bytes;
    }
  }

  const HEX_DIGITS := "0123456789abcdef"

  /** Two lower-case digits an octet, the high half first. */
  lemma {:induction false} HexAt(bytes: seq<byte>, i: nat)
    requires i < |bytes|
    ensures |Hex(bytes)| == 2 * |bytes|
    ensures Hex(bytes)[2 * i] == HEX_DIGITS[bytes[i] / 16] && Hex(bytes)[2 * i + 1] == HEX_DIGITS[bytes[i] % 16]
  {
    HexDigitIs(bytes[i] / 16);
    HexDigitIs(bytes[i] % 16);
    if i > 0 {
      HexAt(bytes[1..], i - 1);
    } else {
      HexLength(bytes[1..]);
    }
  }

  lemma {:induction false} HexLength(bytes: seq<byte>)
    ensures |Hex(bytes)| == 2 * |bytes|
  {
    if bytes != [] {
      HexLength(bytes[1..]);
    }
  }

  lemma HexDigitIs(v: nat)
    requires v < 16
    ensures HexDigit(v) == HEX_DIGITS[v]
  {
  }

  function HashPassword(kdf: Kdf, password: string, salt: seq<byte>): string {
    Joined("pbkdf2_sha256", PrintInt(PBKDF2_ROUNDS), Hex(salt), Hex(kdf(password, salt, PBKDF2_ROUNDS)))
  }

  function Joined(a: string, b: string, c: string, d: string): string {
    a + ['$'] + (b + ['$'] + (c + ['$'] + d))
  }

  /** Malformed stored values are a refusal, never an error. */
  function VerifyPassword(kdf: Kdf, password: string, stored: Option<string>): bool {
    if stored == None || stored.value == [] then false
    else
      var parts := Split(stored.value, '$');
      if |parts| != 4 then false
      else match (FromHex(parts[2]), ParseInt(parts[1]))
        case (Some(salt), Some(rounds)) => rounds >= 1 && Hex(kdf(password, salt, rounds)) == parts[3]
        case _ => false
  }

  function JoinAll(parts: seq<string>, c: char): string
    requires parts != []
  {
    if |parts| == 1 then parts[0] else parts[0] + [c] + JoinAll(parts[1..], c)
  }

  /** Splitting undoes joining, whatever the number of parts. */
  lemma {:induction false} SplitJoined(parts: seq<string>, c: char)
    requires parts != [] && forall i :: 0 <= i < |parts| ==> c !in parts[i]
    ensures Split(JoinAll(parts, c), c) == parts
  {
    if |parts| == 1 {
      assert parts == [parts[0]];
    } else {
      SplitFirstAt(parts[0], c, JoinAll(parts[1..], c));
      SplitJoined(parts[1..], c);
      assert parts == [parts[0]] + parts[1..];
    }
  }

  lemma JoinedIsJoinAll(a: string, b: string, c: string, d: string)
    ensures Joined(a, b, c, d) == JoinAll([a, b, c, d], '$')
  {
    assert [c, d][1..] == [d] && JoinAll([c, d], '$') == c + ['$'] + d;
    assert [b, c, d][1..] == [c, d] && JoinAll([b, c, d], '$') == b + ['$'] + (c + ['$'] + d);
    assert [a, b, c, d][1..] == [b, c, d];
  }

  /**
   * What a stored value must look like to verify anything: four parts, a whole number of at least one round, a salt in
   * hex, and then the digest of the password's key. Anything else, a missing value included, verifies nothing.
   */
  lemma VerifiesIff(kdf: Kdf, attempt: string, parts: seq<string>)
    requires parts != [] && forall i :: 0 <= i < |parts| ==> '$' !in parts[i]
    ensures !VerifyPassword(kdf, attempt, None) && !VerifyPassword(kdf, attempt, Some([]))
    ensures VerifyPassword(kdf, attempt, Some(JoinAll(parts, '$')))
      <==> (|parts| == 4 && ParseInt(parts[1]).Some? && ParseInt(parts[1]).value >= 1 && FromHex(parts[2]).Some?
            && parts[3] == Hex(kdf(attempt, FromHex(parts[2]).value, ParseInt(parts[1]).value)))
  {
    SplitJoined(parts, '$');
  }

  lemma VerifyJoined(kdf: Kdf, attempt: string, algorithm: string, rounds: nat, salt: seq<byte>, key: string)
    requires rounds >= 1 && '$' !in algorithm && '$' !in key
    ensures VerifyPassword(kdf, attempt, Some(Joined(algorithm, PrintInt(rounds), Hex(salt), key)))
      <==> Hex(kdf(attempt, salt, rounds)) == key
  {
    ParsePrinted(rounds);
    ValueOfPrint(rounds);
    FromHexHex(salt);
    JoinedIsJoinAll(algorithm, PrintInt(rounds), Hex(salt), key);
    VerifiesIff(kdf, attempt, [algorithm, PrintInt(rounds), Hex(salt), key]);
  }

  /** A stored hash verifies a password exactly when both derive the same key from the stored salt and rounds. */
  lemma VerifyHashed(kdf: Kdf, password: string, salt: seq<byte>, attempt: string)
    ensures VerifyPassword(kdf, attempt, Some(HashPassword(kdf, password, salt)))
      <==> kdf(attempt, salt, 210_000) == kdf(password, salt, 210_000)
  {
    FromHexHex(kdf(password, salt, PBKDF2_ROUNDS));
    FromHexHex(kdf(attempt, salt, PBKDF2_ROUNDS));
    VerifyJoined(kdf, attempt, "pbkdf2_sha256", PBKDF2_ROUNDS, salt, Hex(kdf(password, salt, PBKDF2_ROUNDS)));
  }
}
