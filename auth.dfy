/** Credentials: the `pbkdf2$<iterations>$<salt>$<key>` string stored for a
    password, its verification, session tokens and the initial password issued
    to a new account. The key derivation (PBKDF2 with HMAC-SHA-256, section 5.2
    of RFC 8018, 32-byte output) is a parameter; so are the random bytes and
    the clock. */
module Auth {

  import opened Wrappers
  import opened Text
  import opened Encoding

  const Algorithm := "pbkdf2"
  const Iterations := 100000
  const SaltLength := 16
  const KeyLength := 32
  const MaxInt32 := 2147483647
  const DefaultTokenLength := 32
  const PasswordPrefix := "KFOKAM48"
  const PasswordRandomLength := 8
  const InitialPasswordLength := 16

  /** `crypto.pbkdf2(password, salt, iterations, 32, 'sha256')` once its
      arguments are accepted: some deterministic function of the password, the
      salt text and the iteration count, whose `None` is an error passed to the
      callback and whose key is always the requested 32 bytes. */
  type Kdf = f: (string, string, int) -> Option<seq<byte>>
    | forall password, salt, iterations :: f(password, salt, iterations).Some? ==> |f(password, salt, iterations).value| == KeyLength
    witness (password: string, salt: string, iterations: int) => None

  /** Node checks the arguments before deriving anything: the salt must be
      present and the iteration count an integer from 1 to 2^31 - 1. Otherwise
      `pbkdf2` throws inside the promise executor, which rejects the promise. */
  predicate Pbkdf2AcceptsArguments(salt: Option<string>, iterations: Option<int>)
  {
    salt.Some? && iterations.Some? && 1 <= iterations.value <= MaxInt32
  }

  lemma IterationsText()
    ensures IntToString(Iterations) == "100000"
  {
    assert NatToDecimal(1) == "1";
    assert NatToDecimal(10) == "10";
    assert NatToDecimal(100) == "100";
    assert NatToDecimal(1000) == "1000";
    assert NatToDecimal(10000) == "10000";
  }

  /** `hashPassword`: the tag, the iteration count, the hexadecimal salt and the
      hexadecimal derived key joined by `$`; `None` when derivation fails. The
      salt text, not the salt bytes, is what the derivation receives. */
  function HashPassword(kdf: Kdf, password: string, saltBytes: seq<byte>): (r: Option<string>)
    requires |saltBytes| == SaltLength
    ensures r.Some? <==> kdf(password, Hex(saltBytes), Iterations).Some?
    ensures r.Some? ==>
      && Split(r.value, '$') == [Algorithm, "100000", Hex(saltBytes), Hex(kdf(password, Hex(saltBytes), Iterations).value)]
      && |Hex(saltBytes)| == 2 * SaltLength
      && |Split(r.value, '$')[3]| == 2 * KeyLength
  {
    var salt := Hex(saltBytes);
    match kdf(password, salt, Iterations)
    case None => None
    case Some(key) =>
      var fields := [Algorithm, IntToString(Iterations), salt, Hex(key)];
      IterationsText();
      HexHasNoDollar(saltBytes);
      HexHasNoDollar(key);
      assert '$' !in Algorithm;
      SplitJoin(fields, '$');
      Some(Join(fields, '$'))
  }

  /** The outcome of `verifyPassword`: the promise resolves to true or false,
      or it is rejected. */
  datatype Verdict = Accepted | Rejected | Failed

  /** Array destructuring: a missing element is `undefined`. */
  function FieldAt(fields: seq<string>, i: nat): Option<string>
  {
    if i < |fields| then Some(fields[i]) else None
  }

  /** `verifyPassword`: split on `$` and keep the first four fields; a tag other
      than `pbkdf2` is false without deriving; otherwise derive with the stored
      salt and `parseInt` of the stored count and compare the lower-case hex of
      the result with the fourth field by `===`. */
  function VerifyPassword(kdf: Kdf, password: string, hash: string): (r: Verdict)
    ensures Split(hash, '$')[0] != Algorithm ==> r == Rejected
  {
    var fields := Split(hash, '$');
    if fields[0] != Algorithm then Rejected
    else
      var iterations := JsParseInt(JsString(FieldAt(fields, 1)));
      var salt := FieldAt(fields, 2);
      var storedHash := FieldAt(fields, 3);
      if !Pbkdf2AcceptsArguments(salt, iterations) then Failed
      else
        match kdf(password, salt.value, iterations.value)
        case None => Failed
        case Some(key) => if storedHash == Some(Hex(key)) then Accepted else Rejected
  }

  /** With the tag, a salt, a key and a count that `parseInt` reads as a
      number Node accepts, verification derives with the stored salt and that
      count and compares keys. */
  lemma VerifyWellFormed(kdf: Kdf, candidate: string, hash: string, n: int)
    requires |Split(hash, '$')| >= 4 && Split(hash, '$')[0] == Algorithm
    requires JsParseInt(Split(hash, '$')[1]) == Some(n) && 1 <= n <= MaxInt32
    ensures VerifyPassword(kdf, candidate, hash) ==
      match kdf(candidate, Split(hash, '$')[2], n)
      case None => Failed
      case Some(derived) => if Split(hash, '$')[3] == Hex(derived) then Accepted else Rejected
  {
    var fields := Split(hash, '$');
    assert FieldAt(fields, 1) == Some(fields[1]);
    assert Pbkdf2AcceptsArguments(FieldAt(fields, 2), JsParseInt(JsString(FieldAt(fields, 1))));
  }

  lemma IterationsIsParsed()
    ensures JsParseInt("100000") == Some(Iterations)
  {
    IterationsText();
    JsParseIntOfDecimal(Iterations);
  }

  /** A stored hash accepts exactly the candidates that derive the same key
      from its salt; a failing derivation is a rejected promise. */
  lemma VerifyHashedPassword(kdf: Kdf, password: string, saltBytes: seq<byte>, candidate: string)
    requires |saltBytes| == SaltLength
    requires HashPassword(kdf, password, saltBytes).Some?
    ensures VerifyPassword(kdf, candidate, HashPassword(kdf, password, saltBytes).value) == Accepted
      <==> kdf(candidate, Hex(saltBytes), Iterations) == kdf(password, Hex(saltBytes), Iterations)
    ensures VerifyPassword(kdf, candidate, HashPassword(kdf, password, saltBytes).value) == Failed
      <==> kdf(candidate, Hex(saltBytes), Iterations).None?
  {
    var hash := HashPassword(kdf, password, saltBytes).value;
    var salt := Hex(saltBytes);
    var theirs := kdf(password, salt, Iterations).value;
    IterationsIsParsed();
    VerifyWellFormed(kdf, candidate, hash, Iterations);
    var mine := kdf(candidate, salt, Iterations);
    if mine.Some? && Hex(mine.value) == Hex(theirs) {
      HexInjective(mine.value, theirs);
    }
  }

  /** The password that was hashed is accepted. */
  lemma VerifyRoundTrip(kdf: Kdf, password: string, saltBytes: seq<byte>)
    requires |saltBytes| == SaltLength
    requires HashPassword(kdf, password, saltBytes).Some?
    ensures VerifyPassword(kdf, password, HashPassword(kdf, password, saltBytes).value) == Accepted
  {
    VerifyHashedPassword(kdf, password, saltBytes, password);
  }

  /** Fields after the fourth are never looked at. */
  lemma VerifyIgnoresExtraFields(kdf: Kdf, password: string, hash: string, extra: string)
    requires |Split(hash, '$')| >= 4
    ensures VerifyPassword(kdf, password, hash + "$" + extra) == VerifyPassword(kdf, password, hash)
  {
    SplitConcat(hash, extra, '$');
    assert hash + "$" + extra == hash + ['$'] + extra;
    var f, g := Split(hash, '$'), Split(hash + "$" + extra, '$');
    assert g[0] == f[0] && g[1] == f[1] && g[2] == f[2] && g[3] == f[3];
  }

  /** The comparison is on text: a stored key with any character outside
      `[0-9a-f]` (an upper-case digit, say) never matches. */
  lemma VerifyIsCaseSensitive(kdf: Kdf, password: string, hash: string, i: nat)
    requires |Split(hash, '$')| >= 4
    requires i < |Split(hash, '$')[3]| && !IsLowerHex(Split(hash, '$')[3][i])
    ensures VerifyPassword(kdf, password, hash) != Accepted
  {
  }

  /** A stored value with the right tag but no salt field, or whose count is not
      a number from 1 to 2^31 - 1, makes the promise reject rather than resolve
      to false. */
  lemma VerifyMalformedFails(kdf: Kdf, password: string, hash: string)
    requires Split(hash, '$')[0] == Algorithm
    requires || |Split(hash, '$')| < 3
             || JsParseInt(Split(hash, '$')[1]).None?
             || !(1 <= JsParseInt(Split(hash, '$')[1]).value <= MaxInt32)
    ensures VerifyPassword(kdf, password, hash) == Failed
  {
  }

  lemma VerifyMalformedExample(kdf: Kdf, password: string)
    ensures VerifyPassword(kdf, password, "pbkdf2") == Failed
  {
    SplitWithoutSeparator("pbkdf2", '$');
  }

  /** `generateToken`: the lower-case hex of `length` random bytes, 32 unless
      the caller says otherwise. */
  function GenerateToken(random: seq<byte>, length: nat := DefaultTokenLength): (r: string)
    requires |random| == length
    ensures |r| == 2 * length
    ensures forall i :: 0 <= i < |r| ==> IsLowerHex(r[i])
    ensures HexDecode(r) == Some(random)
  {
    HexRoundTrip(random);
    Hex(random)
  }

  /** Called without a length, `generateToken` gives 64 hex characters. */
  lemma GenerateTokenDefault(random: seq<byte>)
    requires |random| == DefaultTokenLength
    ensures |GenerateToken(random)| == 64
    ensures HexDecode(GenerateToken(random)) == Some(random)
  {
  }

  lemma IntToStringIsAscii(n: int)
    ensures IsAscii(IntToString(n))
  {
    var s := IntToString(n);
    var d := NatToDecimal(if n < 0 then -n else n);
    forall i | 0 <= i < |s| ensures s[i] as int < 128 {
      if n < 0 && i > 0 { assert s[i] == d[i - 1]; }
    }
  }

  /** `generateInitialPassword`: the first 16 characters of the base 64 text of
      `KFOKAM48`, the clock in milliseconds and the hex of 8 random bytes. */
  function GenerateInitialPassword(nowMs: int, random: seq<byte>): (r: string)
    requires |random| == PasswordRandomLength
    ensures |r| == InitialPasswordLength
    ensures forall i :: 0 <= i < |r| ==> IsBase64Char(r[i])
  {
    var combined := PasswordPrefix + IntToString(nowMs) + Hex(random);
    CombinedIsAscii(nowMs, random);
    var data := AsciiBytes(combined);
    Base64Head(data);
    Base64Encode(data)[..InitialPasswordLength]
  }

  lemma CombinedIsAscii(nowMs: int, random: seq<byte>)
    ensures IsAscii(PasswordPrefix + IntToString(nowMs) + Hex(random))
  {
    var t, h := IntToString(nowMs), Hex(random);
    var combined := PasswordPrefix + t + h;
    IntToStringIsAscii(nowMs);
    forall i | 0 <= i < |combined| ensures combined[i] as int < 128 {
      var k := |PasswordPrefix + t|;
      if i >= k { assert combined[i] == h[i - k] && IsLowerHex(h[i - k]); }
      else if i >= |PasswordPrefix| { assert combined[i] == t[i - |PasswordPrefix|]; }
    }
  }

  /** Only the first 12 bytes reach the result: the prefix and the first four
      characters of the clock. The random bytes never do. */
  lemma InitialPasswordIgnoresRandom(nowMs: int, random: seq<byte>)
    requires |random| == PasswordRandomLength
    requires |IntToString(nowMs)| >= 4
    ensures IsAscii(PasswordPrefix + IntToString(nowMs)[..4])
    ensures GenerateInitialPassword(nowMs, random)
      == Base64Encode(AsciiBytes(PasswordPrefix + IntToString(nowMs)[..4]))
  {
    var t := IntToString(nowMs);
    var combined := PasswordPrefix + t + Hex(random);
    var head := PasswordPrefix + t[..4];
    IntToStringIsAscii(nowMs);
    assert combined[..12] == head;
    assert IsAscii(head) by {
      forall i | 0 <= i < |head| ensures head[i] as int < 128 {
        if i >= 8 { assert head[i] == t[i - 8]; }
      }
    }
    var data := AsciiBytes(combined);
    assert data[..12] == AsciiBytes(head);
    Base64Head(data);
  }

  /** Two accounts created while the leading four digits of the clock agree get
      the same initial password, whatever the random bytes. */
  lemma InitialPasswordCollision(t1: int, r1: seq<byte>, t2: int, r2: seq<byte>)
    requires |r1| == PasswordRandomLength && |r2| == PasswordRandomLength
    requires |IntToString(t1)| >= 4 && |IntToString(t2)| >= 4
    requires IntToString(t1)[..4] == IntToString(t2)[..4]
    ensures GenerateInitialPassword(t1, r1) == GenerateInitialPassword(t2, r2)
  {
    InitialPasswordIgnoresRandom(t1, r1);
    InitialPasswordIgnoresRandom(t2, r2);
  }
}
