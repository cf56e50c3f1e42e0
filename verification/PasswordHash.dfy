/** The printed form of a derived password, its parser, and verification. Key derivation itself
    (section 5.2 of RFC 8018) is an uninterpreted function. */
module PasswordHash {

  datatype Pbkdf2 = Pbkdf2(digestId: int, digest: string, iterations: int, salt: string, hash: string)

  datatype Error = EmptyHash | InvalidHash | UnknownDigest | InvalidIterations

  datatype Result<T> = Ok(value: T) | Err(error: Error)

  const AUTH_MD5 := 1
  const AUTH_SHA256 := 2
  const AUTH_SHA512 := 3
  const AUTH_SHA1 := 4
  const MAX_INT := 0x7fff_ffff_ffff_ffff

  // ---------------------------------------------------------------- decimal numbers

  function DigitChar(d: nat): (c: char)
    requires d < 10
    ensures '0' <= c <= '9'
  {
    '0' + d as char
  }

  predicate IsDigit(c: char) {
    '0' <= c <= '9'
  }

  function DigitValue(c: char): nat
    requires IsDigit(c)
  {
    c as int - '0' as int
  }

  ghost predicate AllDigits(s: string) {
    forall k | 0 <= k < |s| :: IsDigit(s[k])
  }

  function Natural(n: nat): (s: string)
    ensures s != [] && AllDigits(s)
  {
    if n < 10 then [DigitChar(n)] else Natural(n / 10) + [DigitChar(n % 10)]
  }

  function Decimal(n: int): string {
    if n < 0 then "-" + Natural(-n) else Natural(n)
  }

  function Value(s: string): nat
    requires AllDigits(s)
  {
    if s == [] then 0 else 10 * Value(s[..|s| - 1]) + DigitValue(s[|s| - 1])
  }

  lemma {:induction false} DecimalRoundTrip(n: nat)
    ensures Value(Natural(n)) == n
  {
    if n >= 10 {
      DecimalRoundTrip(n / 10);
      var s := Natural(n);
      assert s[..|s| - 1] == Natural(n / 10);
    }
  }

  function Pow10(k: nat): (p: nat)
    ensures p > 0
  {
    if k == 0 then 1 else 10 * Pow10(k - 1)
  }

  lemma DivTwice(n: nat, p: nat)
    requires p > 0
    ensures n / 10 / p == n / (10 * p)
  {
    var a, b, r := n / 10 / p, n / 10 % p, n % 10;
    assert n == 10 * (p * a + b) + r == (10 * p) * a + (10 * b + r);
    DivIs(n, 10 * p, a, 10 * b + r);
  }

  lemma DivIs(n: nat, d: nat, q: nat, r: nat)
    requires r < d && n == d * q + r
    ensures n / d == q
  {
    var k := n / d;
    assert n == d * k + n % d;
    assert k < q ==> d * (k + 1) <= d * q;
    assert k > q ==> d * (q + 1) <= d * k;
  }

  /** Digit k from the right counts 10 to the power of k, and there is no leading zero. */
  lemma {:induction false} DecimalDigits(n: nat, k: nat)
    requires k < |Natural(n)|
    ensures Natural(n)[|Natural(n)| - 1 - k] == '0' + (n / Pow10(k) % 10) as char
    ensures Natural(n)[0] == '0' ==> n == 0
  {
    if n >= 10 {
      var init := Natural(n / 10);
      if k == 0 {
        DecimalDigits(n / 10, 0);
      } else {
        DecimalDigits(n / 10, k - 1);
        assert Natural(n)[|init| - k] == init[|init| - k];
        DivTwice(n, Pow10(k - 1));
      }
      assert Natural(n)[0] == init[0];
    }
  }

  // ---------------------------------------------------------------- printing and parsing

  const PREFIX := "$pbkdf2-"
  const ROUNDS := "$i="

  function ToString(p: Pbkdf2): string {
    PREFIX + (p.digest + (ROUNDS + (Decimal(p.iterations) + ("$" + (p.salt + ("$" + p.hash))))))
  }

  predicate NotDollar(c: char) {
    c != '$'
  }

  predicate NotBlank(c: char) {
    c != '\r' && c != '\n' && c != '\t' && c != ' '
  }

  /** The length of the longest prefix of characters of a class. */
  function Span(s: string, inClass: char -> bool): (n: nat)
    ensures n <= |s|
    ensures forall k | 0 <= k < n :: inClass(s[k])
    ensures n < |s| ==> !inClass(s[n])
  {
    if s == [] || !inClass(s[0]) then 0 else 1 + Span(s[1..], inClass)
  }

  /** The rest after a literal, or nothing when the literal is not there. */
  function After(s: string, literal: string): Result<string> {
    if literal <= s then Ok(s[|literal|..]) else Err(InvalidHash)
  }

  /** One or more characters of a class, as many as there are, and the rest. */
  function Take(s: string, inClass: char -> bool): (r: Result<(string, string)>)
    ensures r.Ok? ==> r.value.0 != "" && forall k | 0 <= k < |r.value.0| :: inClass(r.value.0[k])
  {
    var n := Span(s, inClass);
    if n == 0 then Err(InvalidHash) else Ok((s[..n], s[n..]))
  }

  /** The four groups of ^\$pbkdf2-([^$]+)\$i=(\d+)\$([^$]+)\$([^\r\n\t ]+), which is open at the end.
      Each group ends at a character outside its class, so the match is unique. */
  function Groups(s: string): (r: Result<(string, string, string, string)>)
    ensures r.Ok? ==>
      && AllDigits(r.value.1) && r.value.1 != ""
      && r.value.2 != "" && (forall k | 0 <= k < |r.value.2| :: NotDollar(r.value.2[k]))
      && r.value.3 != "" && (forall k | 0 <= k < |r.value.3| :: NotBlank(r.value.3[k]))
  {
    match After(s, PREFIX) case Err(e) => Err(e) case Ok(s1) =>
    match Take(s1, NotDollar) case Err(e) => Err(e) case Ok((digest, s2)) =>
    match After(s2, ROUNDS) case Err(e) => Err(e) case Ok(s3) =>
    match Take(s3, IsDigit) case Err(e) => Err(e) case Ok((rounds, s4)) =>
    match After(s4, "$") case Err(e) => Err(e) case Ok(s5) =>
    match Take(s5, NotDollar) case Err(e) => Err(e) case Ok((salt, s6)) =>
    match After(s6, "$") case Err(e) => Err(e) case Ok(s7) =>
    match Take(s7, NotBlank) case Err(e) => Err(e) case Ok((hash, _)) =>
    Ok((digest, rounds, salt, hash))
  }

  function DigestToAuthMethod(digest: string): Result<int> {
    if digest == "md5" then Ok(AUTH_MD5)
    else if digest == "sha256" then Ok(AUTH_SHA256)
    else if digest == "sha512" then Ok(AUTH_SHA512)
    else Err(UnknownDigest)
  }

  function HashedPasswordToPbkdf2(s: string): Result<Pbkdf2> {
    if s == "" then Err(EmptyHash)
    else
      match Groups(s)
      case Err(e) => Err(e)
      case Ok((digest, rounds, salt, hash)) =>
        match DigestToAuthMethod(digest)
        case Err(e) => Err(e)
        case Ok(id) =>
          if Value(rounds) > MAX_INT then Err(InvalidIterations)
          else Ok(Pbkdf2(id, digest, Value(rounds), salt, hash))
  }

  // ---------------------------------------------------------------- the round trip

  /** What a caller can check before printing. */
  ghost predicate Printable(p: Pbkdf2) {
    && DigestToAuthMethod(p.digest) == Ok(p.digestId)
    && 0 <= p.iterations <= MAX_INT
    && p.salt != "" && (forall k | 0 <= k < |p.salt| :: NotDollar(p.salt[k]))
    && p.hash != "" && (forall k | 0 <= k < |p.hash| :: NotBlank(p.hash[k]))
  }

  lemma {:induction false} SpanOf(head: string, rest: string, inClass: char -> bool)
    requires forall k | 0 <= k < |head| :: inClass(head[k])
    requires rest != "" ==> !inClass(rest[0])
    ensures Span(head + rest, inClass) == |head|
  {
    if head == [] {
      assert head + rest == rest;
    } else {
      assert (head + rest)[1..] == head[1..] + rest;
      SpanOf(head[1..], rest, inClass);
    }
  }

  lemma TakeOf(head: string, rest: string, inClass: char -> bool)
    requires head != "" && forall k | 0 <= k < |head| :: inClass(head[k])
    requires rest != "" ==> !inClass(rest[0])
    ensures Take(head + rest, inClass) == Ok((head, rest))
  {
    SpanOf(head, rest, inClass);
  }

  lemma AfterOf(literal: string, rest: string)
    ensures After(literal + rest, literal) == Ok(rest)
  {
  }

  /** A string of the printed form, and what may follow it. */
  ghost predicate HasForm(s: string, digest: string, rounds: string, salt: string, hash: string, rest: string) {
    && s == "$pbkdf2-" + (digest + ("$i=" + (rounds + ("$" + (salt + ("$" + (hash + rest)))))))
    && digest != "" && '$' !in digest
    && rounds != "" && (forall k | 0 <= k < |rounds| :: '0' <= rounds[k] <= '9')
    && salt != "" && '$' !in salt
    && hash != "" && (forall k | 0 <= k < |hash| :: hash[k] !in "\r\n\t ")
    && (rest != "" ==> rest[0] in "\r\n\t ")
  }

  lemma AfterIs(s: string, literal: string)
    ensures After(s, literal).Ok? ==> s == literal + After(s, literal).value
  {
  }

  lemma TakeIs(s: string, inClass: char -> bool)
    ensures
      var r := Take(s, inClass);
      r.Ok? ==>
        && s == r.value.0 + r.value.1
        && (forall k | 0 <= k < |r.value.0| :: inClass(r.value.0[k]))
        && (r.value.1 != "" ==> !inClass(r.value.1[0]))
  {
  }

  /** How the pattern splits a string that it matches. */
  lemma SplitOf(s: string) returns (s1: string, s2: string, s3: string, s4: string, s5: string, s6: string, s7: string,
                                    rest: string)
    requires Groups(s).Ok?
    ensures
      var (digest, rounds, salt, hash) := Groups(s).value;
      && After(s, PREFIX) == Ok(s1) && Take(s1, NotDollar) == Ok((digest, s2))
      && After(s2, ROUNDS) == Ok(s3) && Take(s3, IsDigit) == Ok((rounds, s4))
      && After(s4, "$") == Ok(s5) && Take(s5, NotDollar) == Ok((salt, s6))
      && After(s6, "$") == Ok(s7) && Take(s7, NotBlank) == Ok((hash, rest))
  {
    hide Take, After;
    s1 := After(s, PREFIX).value;
    s2 := Take(s1, NotDollar).value.1;
    s3 := After(s2, ROUNDS).value;
    s4 := Take(s3, IsDigit).value.1;
    s5 := After(s4, "$").value;
    s6 := Take(s5, NotDollar).value.1;
    s7 := After(s6, "$").value;
    rest := Take(s7, NotBlank).value.1;
  }

  /** The character classes of the pattern. */
  ghost predicate InClasses(digest: string, rounds: string, salt: string, hash: string, rest: string) {
    && digest != "" && (forall k | 0 <= k < |digest| :: NotDollar(digest[k]))
    && rounds != "" && (forall k | 0 <= k < |rounds| :: IsDigit(rounds[k]))
    && salt != "" && (forall k | 0 <= k < |salt| :: NotDollar(salt[k]))
    && hash != "" && (forall k | 0 <= k < |hash| :: NotBlank(hash[k]))
    && (rest != "" ==> !NotBlank(rest[0]))
  }

  lemma NoDollar(s: string)
    ensures (forall k | 0 <= k < |s| :: NotDollar(s[k])) <==> '$' !in s
  {
  }

  lemma BlankIs(c: char)
    ensures NotBlank(c) <==> c !in "\r\n\t "
  {
    var blanks := "\r\n\t ";
    assert blanks[0] == '\r' && blanks[1] == '\n' && blanks[2] == '\t' && blanks[3] == ' ';
  }

  ghost predicate Joined(s: string, digest: string, rounds: string, salt: string, hash: string, rest: string) {
    s == PREFIX + (digest + (ROUNDS + (rounds + ("$" + (salt + ("$" + (hash + rest)))))))
  }

  lemma FormIs(s: string, digest: string, rounds: string, salt: string, hash: string, rest: string)
    ensures HasForm(s, digest, rounds, salt, hash, rest) <==>
      Joined(s, digest, rounds, salt, hash, rest) && InClasses(digest, rounds, salt, hash, rest)
  {
    NoDollar(digest);
    NoDollar(salt);
    forall c: char ensures NotBlank(c) <==> c !in "\r\n\t " {
      BlankIs(c);
    }
    hide NotDollar, NotBlank;
  }

  /** A string that matches the pattern has this form, with the groups where they belong. */
  lemma MatchHasForm(s: string) returns (rest: string)
    requires Groups(s).Ok?
    ensures HasForm(s, Groups(s).value.0, Groups(s).value.1, Groups(s).value.2, Groups(s).value.3, rest)
  {
    var (digest, rounds, salt, hash) := Groups(s).value;
    var s1, s2, s3, s4, s5, s6, s7;
    s1, s2, s3, s4, s5, s6, s7, rest := SplitOf(s);
    hide Groups, Take, After, HasForm, NotDollar, NotBlank, IsDigit;
    AfterIs(s, PREFIX);
    TakeIs(s1, NotDollar);
    AfterIs(s2, ROUNDS);
    TakeIs(s3, IsDigit);
    AfterIs(s4, "$");
    TakeIs(s5, NotDollar);
    AfterIs(s6, "$");
    TakeIs(s7, NotBlank);
    FormIs(s, digest, rounds, salt, hash, rest);
  }

  /** And every string of this form matches it. */
  lemma FormMatches(s: string, digest: string, rounds: string, salt: string, hash: string, rest: string)
    requires HasForm(s, digest, rounds, salt, hash, rest)
    ensures Groups(s) == Ok((digest, rounds, salt, hash))
  {
    FormIs(s, digest, rounds, salt, hash, rest);
    hide HasForm, Take, After;
    var s7 := hash + rest;
    var s6 := "$" + s7;
    var s5 := salt + s6;
    var s4 := "$" + s5;
    var s3 := rounds + s4;
    var s2 := ROUNDS + s3;
    var s1 := digest + s2;
    AfterOf(PREFIX, s1);
    TakeOf(digest, s2, NotDollar);
    AfterOf(ROUNDS, s3);
    TakeOf(rounds, s4, IsDigit);
    AfterOf("$", s5);
    TakeOf(salt, s6, NotDollar);
    AfterOf("$", s7);
    TakeOf(hash, rest, NotBlank);
  }

  lemma GroupsOfPrinted(p: Pbkdf2, rounds: string)
    requires p.digest != "" && (forall k | 0 <= k < |p.digest| :: NotDollar(p.digest[k]))
    requires rounds == Decimal(p.iterations) && p.iterations >= 0
    requires p.salt != "" && (forall k | 0 <= k < |p.salt| :: NotDollar(p.salt[k]))
    requires p.hash != "" && (forall k | 0 <= k < |p.hash| :: NotBlank(p.hash[k]))
    ensures Groups(ToString(p)) == Ok((p.digest, rounds, p.salt, p.hash))
  {
    assert p.hash + "" == p.hash;
    FormMatches(ToString(p), p.digest, rounds, p.salt, p.hash, "");
  }

  /** The number of the digests that the parser knows. */
  predicate KnownDigest(digest: string, id: int) {
    (digest == "md5" && id == 1) || (digest == "sha256" && id == 2) || (digest == "sha512" && id == 3)
  }

  /** The parser accepts exactly the strings of this form with a known digest and a number of
      iterations that fits, and returns their parts. */
  lemma ParserIsExact(s: string, p: Pbkdf2)
    ensures HashedPasswordToPbkdf2(s) == Ok(p) <==>
      exists rounds, rest ::
        && HasForm(s, p.digest, rounds, p.salt, p.hash, rest)
        && KnownDigest(p.digest, p.digestId)
        && AllDigits(rounds) && p.iterations == Value(rounds) <= 0x7fff_ffff_ffff_ffff
  {
    ParsedGroups(s, p);
    hide HashedPasswordToPbkdf2, Groups, HasForm, Value, KnownDigest;
    if rounds, rest :|
      && HasForm(s, p.digest, rounds, p.salt, p.hash, rest)
      && KnownDigest(p.digest, p.digestId)
      && AllDigits(rounds) && p.iterations == Value(rounds) <= 0x7fff_ffff_ffff_ffff {
      FormMatches(s, p.digest, rounds, p.salt, p.hash, rest);
    } else if HashedPasswordToPbkdf2(s) == Ok(p) {
      var rest := MatchHasForm(s);
      assert HasForm(s, p.digest, Groups(s).value.1, p.salt, p.hash, rest);
    }
  }

  lemma DigestIs(digest: string, id: int)
    ensures DigestToAuthMethod(digest) == Ok(id) <==> KnownDigest(digest, id)
  {
  }

  lemma ParsedGroups(s: string, p: Pbkdf2)
    ensures HashedPasswordToPbkdf2(s) == Ok(p) <==>
      exists rounds: string ::
        && Groups(s) == Ok((p.digest, rounds, p.salt, p.hash))
        && KnownDigest(p.digest, p.digestId)
        && AllDigits(rounds) && p.iterations == Value(rounds) <= 0x7fff_ffff_ffff_ffff
    ensures HashedPasswordToPbkdf2(s) == Ok(p) ==>
      && Groups(s).Ok? && AllDigits(Groups(s).value.1)
      && Groups(s) == Ok((p.digest, Groups(s).value.1, p.salt, p.hash))
      && KnownDigest(p.digest, p.digestId) && p.iterations == Value(Groups(s).value.1) <= 0x7fff_ffff_ffff_ffff
  {
    assert Groups("") == Err(InvalidHash);
    DigestIs(p.digest, p.digestId);
    hide Groups, Value, DigestToAuthMethod, KnownDigest;
  }

  /** The printed form, piece by piece. */
  lemma PrintedForm(p: Pbkdf2)
    ensures ToString(p) == "$pbkdf2-" + p.digest + "$i=" + Decimal(p.iterations) + "$" + p.salt + "$" + p.hash
  {
    hide Decimal;
  }

  lemma KnownDigestHasNoDollar(digest: string)
    requires DigestToAuthMethod(digest).Ok?
    ensures digest != "" && forall k | 0 <= k < |digest| :: NotDollar(digest[k])
  {
  }

  /** Parsing the printed form gives the structure back exactly when it is printable. */
  lemma RoundTrip(p: Pbkdf2)
    ensures HashedPasswordToPbkdf2(ToString(p)) == Ok(p) <==> Printable(p)
  {
    if Printable(p) {
      KnownDigestHasNoDollar(p.digest);
      GroupsOfPrinted(p, Decimal(p.iterations));
      DecimalRoundTrip(p.iterations);
    }
  }

  // ---------------------------------------------------------------- hashing and verifying

  newtype byte = x: int | 0 <= x < 256

  /** (password, salt, iterations, digest id) to a derived key. */
  type Kdf = (string, string, int, int) -> seq<byte>

  function KeyLength(digestId: int): nat {
    if digestId == AUTH_MD5 then 16
    else if digestId == AUTH_SHA1 then 20
    else if digestId == AUTH_SHA256 then 32
    else 64
  }

  ghost predicate Sized(kdf: Kdf) {
    forall password, salt, iterations, digestId :: |kdf(password, salt, iterations, digestId)| == KeyLength(digestId)
  }

  function HexChar(d: nat): (c: char)
    requires d < 16
    ensures NotBlank(c)
  {
    "0123456789abcdef"[d]
  }

  function Hex(key: seq<byte>): (s: string)
    ensures |s| == 2 * |key|
    ensures forall k | 0 <= k < |s| :: NotBlank(s[k])
  {
    if key == [] then ""
    else [HexChar(key[0] as int / 16), HexChar(key[0] as int % 16)] + Hex(key[1..])
  }

  lemma HexCharIs(d: nat)
    requires d < 16
    ensures HexChar(d) == if d < 10 then '0' + d as char else 'a' + (d - 10) as char
  {
    var digits := "0123456789abcdef";
    assert d < 10 ==> digits[d] == '0' + d as char;
    assert d >= 10 ==> digits[d] == 'a' + (d - 10) as char;
  }

  /** Two lower-case hexadecimal digits for each byte, the high half first. */
  lemma {:induction false} HexDigits(key: seq<byte>, k: nat)
    requires k < |key|
    ensures
      var high, low := key[k] as int / 16, key[k] as int % 16;
      && Hex(key)[2 * k] == (if high < 10 then '0' + high as char else 'a' + (high - 10) as char)
      && Hex(key)[2 * k + 1] == (if low < 10 then '0' + low as char else 'a' + (low - 10) as char)
  {
    if k == 0 {
      HexCharIs(key[0] as int / 16);
      HexCharIs(key[0] as int % 16);
      hide HexChar;
    } else {
      HexDigits(key[1..], k - 1);
      hide HexChar;
      assert Hex(key)[2 * k] == Hex(key[1..])[2 * (k - 1)];
      assert Hex(key)[2 * k + 1] == Hex(key[1..])[2 * (k - 1) + 1];
    }
  }

  lemma HexCharInjective(a: nat, b: nat)
    requires a < 16 && b < 16 && HexChar(a) == HexChar(b)
    ensures a == b
  {
  }

  lemma {:induction false} HexInjective(a: seq<byte>, b: seq<byte>)
    requires Hex(a) == Hex(b)
    ensures a == b
  {
    if a != [] && b != [] {
      var s, t := Hex(a), Hex(b);
      assert s[0] == HexChar(a[0] as int / 16) && t[0] == HexChar(b[0] as int / 16);
      assert s[1] == HexChar(a[0] as int % 16) && t[1] == HexChar(b[0] as int % 16);
      HexCharInjective(a[0] as int / 16, b[0] as int / 16);
      HexCharInjective(a[0] as int % 16, b[0] as int % 16);
      assert s[2..] == Hex(a[1..]) && t[2..] == Hex(b[1..]);
      HexInjective(a[1..], b[1..]);
    }
  }

  function DigestToHashMethod(digest: string): Result<int> {
    if digest == "sha256" then Ok(AUTH_SHA256)
    else if digest == "sha512" then Ok(AUTH_SHA512)
    else if digest == "sha1" then Ok(AUTH_SHA1)
    else if digest == "md5" then Ok(AUTH_MD5)
    else Err(UnknownDigest)
  }

  function HashPassword(kdf: Kdf, digest: string, iterations: int, salt: string, password: string): Result<string> {
    match DigestToHashMethod(digest)
    case Err(e) => Err(e)
    case Ok(id) => Ok(ToString(Pbkdf2(id, digest, iterations, salt, Hex(kdf(password, salt, iterations, id)))))
  }

  /** Hash for the digest ids that the parser produces. */
  function Verify(kdf: Kdf, p: Pbkdf2, password: string): Result<bool> {
    if p.digestId == AUTH_SHA256 || p.digestId == AUTH_SHA512 || p.digestId == AUTH_SHA1 || p.digestId == AUTH_MD5 then
      Ok(Hex(kdf(password, p.salt, p.iterations, p.digestId)) == p.hash)
    else if p.digestId == 0 then Ok(password == p.hash)
    else Err(UnknownDigest)
  }

  /** What verification compares, for every digest number: the derived key in hexadecimal, the
      password itself for number 0, and nothing else is known. */
  lemma VerifyCases(kdf: Kdf, p: Pbkdf2, password: string)
    ensures Verify(kdf, p, password) ==
      if p.digestId == 0 then Ok(password == p.hash)
      else if 1 <= p.digestId <= 4 then Ok(p.hash == Hex(kdf(password, p.salt, p.iterations, p.digestId)))
      else Err(UnknownDigest)
  {
  }

  /** A stored password hash verifies exactly the passwords that derive the same key. */
  lemma VerifyAfterHash(kdf: Kdf, digest: string, iterations: int, salt: string, password: string, attempt: string)
    requires Sized(kdf)
    requires digest == "md5" || digest == "sha256" || digest == "sha512"
    requires 0 <= iterations <= MAX_INT && salt != "" && forall k | 0 <= k < |salt| :: NotDollar(salt[k])
    ensures
      var printed := HashPassword(kdf, digest, iterations, salt, password);
      && printed.Ok?
      && var parsed := HashedPasswordToPbkdf2(printed.value);
      && parsed.Ok?
      && Verify(kdf, parsed.value, password) == Ok(true)
      && (Verify(kdf, parsed.value, attempt) == Ok(true) <==>
            kdf(attempt, salt, iterations, parsed.value.digestId) ==
            kdf(password, salt, iterations, parsed.value.digestId))
  {
    var id := DigestToHashMethod(digest).value;
    var key := kdf(password, salt, iterations, id);
    var p := Pbkdf2(id, digest, iterations, salt, Hex(key));
    RoundTrip(p);
    if Hex(kdf(attempt, salt, iterations, id)) == Hex(key) {
      HexInjective(kdf(attempt, salt, iterations, id), key);
    }
  }

  /** HashPassword also prints sha1 hashes, but the parser never accepts one. */
  lemma Sha1CannotBeLoaded(kdf: Kdf, iterations: int, salt: string, password: string)
    ensures HashPassword(kdf, "sha1", iterations, salt, password).Ok?
    ensures HashedPasswordToPbkdf2(HashPassword(kdf, "sha1", iterations, salt, password).value).Err?
  {
    hide Decimal, Hex;
    var printed := HashPassword(kdf, "sha1", iterations, salt, password).value;
    var hash := Hex(kdf(password, salt, iterations, AUTH_SHA1));
    var rest := ROUNDS + (Decimal(iterations) + ("$" + (salt + ("$" + hash))));
    AfterOf(PREFIX, "sha1" + rest);
    TakeOf("sha1", rest, NotDollar);
  }
}
