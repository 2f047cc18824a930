/**
 * Certificates: serials, signatures, the unique keys that keep one per learner and course, and
 * public verification of a serial as a stranger types it.
 */
module Certificates {
  import opened Base
  import opened Enrollments

  /** The HMAC over the claim, as an injective function of what it covers. */
  datatype Mac = Mac(serial: string, key: Key, issuedAt: nat)

  datatype Certificate = Certificate(key: Key, serial: string, issuedAt: nat, signature: Mac, revokedAt: Option<nat>)

  const ALPHABET := "ABCDEFGHJKLMNPQRSTUVWXYZ23456789"

  function Letters(bytes: seq<nat>): string {
    seq(|bytes|, i requires 0 <= i < |bytes| => ALPHABET[bytes[i] % |ALPHABET|])
  }

  function NewSerial(year: nat, bytes: seq<nat>): string
    requires |bytes| == 12
  {
    var body := Letters(bytes);
    "DA-" + Dec(year) + "-" + body[..4] + "-" + body[4..8] + "-" + body[8..]
  }

  predicate Taken(certs: seq<Certificate>, key: Key, serial: string) {
    exists i :: 0 <= i < |certs| && (certs[i].key == key || certs[i].serial == serial)
  }

  /** The insert, rejected by either unique key. */
  function Mint(certs: seq<Certificate>, key: Key, serial: string, now: nat): seq<Certificate> {
    if Taken(certs, key, serial) then certs
    else certs + [Certificate(key, serial, now, Mac(serial, key, now), None)]
  }

  function Find(certs: seq<Certificate>, serial: string): (at: Option<nat>)
    ensures at.Some? ==> at.value < |certs| && certs[at.value].serial == serial
    ensures at.None? ==> forall i :: 0 <= i < |certs| ==> certs[i].serial != serial
  {
    if certs == [] then None
    else if certs[|certs| - 1].serial == serial then Some(|certs| - 1)
    else Find(certs[..|certs| - 1], serial)
  }

  function Revoke(certs: seq<Certificate>, serial: string, now: nat): seq<Certificate> {
    var at := Find(certs, serial);
    if at.None? then certs else certs[at.value := certs[at.value].(revokedAt := Some(now))]
  }

  // ---- normalisation of a typed serial ------------------------------------------------------------

  /** What `trim` drops: white space and line terminators of ECMAScript. */
  predicate IsSpace(c: char) {
    c == ' ' || '\t' <= c <= '\r' || c in "\U{00A0}\U{1680}\U{2028}\U{2029}\U{202F}\U{205F}\U{3000}\U{FEFF}"
    || '\U{2000}' <= c <= '\U{200A}'
  }

  /**
   * Full Unicode upper-casing of the characters that become ASCII text: the small letters, and the
   * ten others.  What any other character becomes holds a character outside ASCII and no blank, just
   * as the character itself does, so it stands for itself here.
   */
  function UpperOf(c: char): string {
    if 'a' <= c <= 'z' then [c - ('a' - 'A')]
    else if c == '\U{00DF}' then "SS"
    else if c == '\U{0131}' then "I"
    else if c == '\U{017F}' then "S"
    else if c == '\U{FB00}' then "FF"
    else if c == '\U{FB01}' then "FI"
    else if c == '\U{FB02}' then "FL"
    else if c == '\U{FB03}' then "FFI"
    else if c == '\U{FB04}' then "FFL"
    else if c == '\U{FB05}' || c == '\U{FB06}' then "ST"
    else [c]
  }

  function Upper(s: string): string {
    if s == "" then "" else UpperOf(s[0]) + Upper(s[1..])
  }

  function TrimStart(s: string): string {
    if s != "" && IsSpace(s[0]) then TrimStart(s[1..]) else s
  }

  function TrimEnd(s: string): string {
    if s != "" && IsSpace(s[|s| - 1]) then TrimEnd(s[..|s| - 1]) else s
  }

  function Normalize(typed: string): string {
    TrimEnd(TrimStart(Upper(typed)))
  }

  datatype Verdict = Unknown | WasRevoked | Mismatch | Valid(cert: Certificate)

  function Verify(certs: seq<Certificate>, typed: string): Verdict {
    var at := Find(certs, Normalize(typed));
    if at.None? then Unknown
    else
      var cert := certs[at.value];
      if cert.revokedAt.Some? then WasRevoked
      else if Mac(cert.serial, cert.key, cert.issuedAt) != cert.signature then Mismatch
      else Valid(cert)
  }

  predicate Blank(s: string) {
    forall i :: 0 <= i < |s| ==> IsSpace(s[i])
  }

  /** Text that upper-casing leaves alone. */
  predicate Capital(s: string) {
    forall i :: 0 <= i < |s| ==> UpperOf(s[i]) == [s[i]]
  }

  lemma {:induction false} CapitalStands(s: string)
    requires Capital(s)
    ensures Upper(s) == s
  {
    if s != "" {
      CapitalStands(s[1..]);
      assert s == [s[0]] + s[1..];
    }
  }

  lemma {:induction false} UpperJoins(a: string, b: string)
    ensures Upper(a + b) == Upper(a) + Upper(b)
  {
    if a == "" {
      assert a + b == b;
    } else {
      assert (a + b)[1..] == a[1..] + b;
      UpperJoins(a[1..], b);
    }
  }

  /** A blank stays itself, and nothing else becomes one. */
  lemma UpperKeepsBlanks(c: char)
    ensures IsSpace(c) ==> UpperOf(c) == [c]
    ensures !IsSpace(c) ==>
      UpperOf(c) != "" && !IsSpace(UpperOf(c)[0]) && !IsSpace(UpperOf(c)[|UpperOf(c)| - 1])
  {
  }

  lemma BlankIsCapital(s: string)
    requires Blank(s)
    ensures Upper(s) == s
  {
    forall i | 0 <= i < |s|
      ensures UpperOf(s[i]) == [s[i]]
    {
      UpperKeepsBlanks(s[i]);
    }
    CapitalStands(s);
  }

  lemma {:induction false} TrimStartDropsBlanks(pad: string, s: string)
    requires Blank(pad) && s != "" && !IsSpace(s[0])
    ensures TrimStart(pad + s) == s
  {
    if pad == "" {
      assert pad + s == s;
    } else {
      assert (pad + s)[1..] == pad[1..] + s;
      TrimStartDropsBlanks(pad[1..], s);
    }
  }

  lemma {:induction false} TrimEndDropsBlanks(s: string, pad: string)
    requires Blank(pad) && s != "" && !IsSpace(s[|s| - 1])
    ensures TrimEnd(s + pad) == s
  {
    if pad == "" {
      assert s + pad == s;
    } else {
      assert (s + pad)[..|s + pad| - 1] == s + pad[..|pad| - 1];
      TrimEndDropsBlanks(s, pad[..|pad| - 1]);
    }
  }

  /** A serial that normalisation leaves alone: no blank at either end and nothing to upper-case. */
  predicate Proper(serial: string) {
    serial != "" && !IsSpace(serial[0]) && !IsSpace(serial[|serial| - 1]) && Capital(serial)
  }

  lemma UpperKeepsPadding(before: string, core: string, after: string)
    requires Blank(before) && Blank(after)
    ensures Upper(before + core + after) == before + Upper(core) + after
  {
    UpperJoins(before + core, after);
    UpperJoins(before, core);
    BlankIsCapital(before);
    BlankIsCapital(after);
  }

  lemma TrimRecovers(before: string, s: string, after: string)
    requires Blank(before) && Blank(after) && s != "" && !IsSpace(s[0]) && !IsSpace(s[|s| - 1])
    ensures TrimEnd(TrimStart(before + s + after)) == s
  {
    assert before + s + after == before + (s + after);
    assert (s + after)[0] == s[0];
    TrimStartDropsBlanks(before, s + after);
    TrimEndDropsBlanks(s, after);
  }

  lemma NormalizeRecovers(before: string, core: string, after: string, serial: string)
    requires Blank(before) && Blank(after) && Upper(core) == serial && Proper(serial)
    ensures Normalize(before + core + after) == serial
  {
    UpperKeepsPadding(before, core, after);
    TrimRecovers(before, serial, after);
  }

  lemma JoinedCapitals(a: string, b: string)
    requires Capital(a) && Capital(b)
    ensures Capital(a + b)
  {
  }

  lemma LettersAreCapital(bytes: seq<nat>)
    ensures Capital(Letters(bytes))
  {
    assert forall k :: 0 <= k < |ALPHABET| ==> UpperOf(ALPHABET[k]) == [ALPHABET[k]];
  }

  lemma DigitsAreCapital(s: string)
    requires forall i :: 0 <= i < |s| ==> '0' <= s[i] <= '9'
    ensures Capital(s)
  {
  }

  lemma PrefixIsCapital(year: nat)
    ensures Capital("DA-" + Dec(year) + "-")
  {
    DecLength(year);
    DigitsAreCapital(Dec(year));
    JoinedCapitals("DA-", Dec(year));
    JoinedCapitals("DA-" + Dec(year), "-");
  }

  lemma NewSerialIsCapital(year: nat, bytes: seq<nat>)
    requires |bytes| == 12
    ensures Capital(NewSerial(year, bytes))
  {
    var body, head := Letters(bytes), "DA-" + Dec(year) + "-";
    LettersAreCapital(bytes);
    PrefixIsCapital(year);
    JoinedCapitals(head, body[..4]);
    JoinedCapitals(head + body[..4], "-");
    JoinedCapitals(head + body[..4] + "-", body[4..8]);
    JoinedCapitals(head + body[..4] + "-" + body[4..8], "-");
    JoinedCapitals(head + body[..4] + "-" + body[4..8] + "-", body[8..]);
  }

  lemma NewSerialIsProper(year: nat, bytes: seq<nat>)
    requires |bytes| == 12
    ensures Proper(NewSerial(year, bytes))
  {
    var s, body := NewSerial(year, bytes), Letters(bytes);
    NewSerialIsCapital(year, bytes);
    assert s[0] == 'D';
    assert s[|s| - 1] == body[11] == ALPHABET[bytes[11] % |ALPHABET|];
  }

  lemma GroupsStand(head: string, body: string, i: nat)
    requires |body| == 12 && i < 12
    ensures var s := head + "-" + body[..4] + "-" + body[4..8] + "-" + body[8..];
      && |s| == |head| + 15 && s[..|head|] == head
      && s[|head|] == s[|head| + 5] == s[|head| + 10] == '-'
      && s[|head| + 1 + i + i / 4] == body[i]
  {
  }

  /** Where the parts of a serial stand: year, then the twelve letters in groups of four. */
  lemma SerialParts(year: nat, bytes: seq<nat>, i: nat)
    requires |bytes| == 12 && i < 12
    ensures var s, y := NewSerial(year, bytes), |Dec(year)|;
      && |s| == y + 18 && s[..3 + y] == "DA-" + Dec(year)
      && s[3 + y] == s[8 + y] == s[13 + y] == '-'
      && s[4 + y + i + i / 4] == ALPHABET[bytes[i] % 32]
  {
    GroupsStand("DA-" + Dec(year), Letters(bytes), i);
  }

  /** The place of a letter in the alphabet, which skips I, O, 0 and 1. */
  function Place(c: char): int {
    var n := c as int;
    if n < 'A' as int then n - '2' as int + 24
    else n - 'A' as int - (if n > 'O' as int then 2 else if n > 'I' as int then 1 else 0)
  }

  lemma AlphabetPlaces(i: nat)
    requires i < 32
    ensures Place(ALPHABET[i]) == i && ALPHABET[i] != 'I' && ALPHABET[i] != 'O'
    ensures 'A' <= ALPHABET[i] <= 'Z' || '2' <= ALPHABET[i] <= '9'
  {
  }

  /** Two mints share a serial only in the same year and with the same twelve letters drawn. */
  lemma SerialsDiffer(year: nat, bytes: seq<nat>, year': nat, bytes': seq<nat>)
    requires |bytes| == |bytes'| == 12
    ensures NewSerial(year, bytes) == NewSerial(year', bytes') <==>
      year == year' && forall i :: 0 <= i < 12 ==> bytes[i] % 32 == bytes'[i] % 32
  {
    if year == year' && forall i :: 0 <= i < 12 ==> bytes[i] % 32 == bytes'[i] % 32 {
      assert Letters(bytes) == Letters(bytes');
    }
    if NewSerial(year, bytes) == NewSerial(year', bytes') {
      SerialParts(year, bytes, 0);
      SerialParts(year', bytes', 0);
      assert ("DA-" + Dec(year))[3..] == Dec(year) && ("DA-" + Dec(year'))[3..] == Dec(year');
      DecInjective(year, year');
      forall i | 0 <= i < 12
        ensures bytes[i] % 32 == bytes'[i] % 32
      {
        SerialParts(year, bytes, i);
        SerialParts(year', bytes', i);
        AlphabetPlaces(bytes[i] % 32);
        AlphabetPlaces(bytes'[i] % 32);
      }
    }
  }

  // ---- the table --------------------------------------------------------------------------------

  predicate OnePerKey(certs: seq<Certificate>) {
    forall i, j :: 0 <= i < j < |certs| ==> certs[i].key != certs[j].key && certs[i].serial != certs[j].serial
  }

  predicate WellSigned(certs: seq<Certificate>) {
    forall i :: 0 <= i < |certs| ==>
      certs[i].signature == Mac(certs[i].serial, certs[i].key, certs[i].issuedAt) && Proper(certs[i].serial)
  }

  predicate ProperSerials(certs: seq<Certificate>) {
    forall i :: 0 <= i < |certs| ==> Proper(certs[i].serial)
  }

  lemma MintKeepsTable(certs: seq<Certificate>, key: Key, serial: string, now: nat)
    requires OnePerKey(certs) && WellSigned(certs) && Proper(serial)
    ensures OnePerKey(Mint(certs, key, serial, now)) && WellSigned(Mint(certs, key, serial, now))
  {
  }

  lemma RevokeKeepsTable(certs: seq<Certificate>, serial: string, now: nat)
    requires OnePerKey(certs) && WellSigned(certs)
    ensures OnePerKey(Revoke(certs, serial, now)) && WellSigned(Revoke(certs, serial, now))
  {
  }

  // ---- verification -------------------------------------------------------------------------------

  /** `typed` is some spelling that upper-cases to `serial`, with blanks around it. */
  ghost predicate ReadsAs(typed: string, serial: string) {
    exists before, core, after ::
      typed == before + core + after && Blank(before) && Blank(after) && Upper(core) == serial
  }

  lemma {:induction false} TrimStartCuts(s: string) returns (pad: string)
    ensures Blank(pad) && s == pad + TrimStart(s)
  {
    pad := "";
    if s != "" && IsSpace(s[0]) {
      var rest := TrimStartCuts(s[1..]);
      pad := [s[0]] + rest;
      assert s == [s[0]] + s[1..];
    }
  }

  lemma {:induction false} TrimEndCuts(s: string) returns (pad: string)
    ensures Blank(pad) && s == TrimEnd(s) + pad
  {
    pad := "";
    if s != "" && IsSpace(s[|s| - 1]) {
      var rest := TrimEndCuts(s[..|s| - 1]);
      pad := rest + [s[|s| - 1]];
      assert s == s[..|s| - 1] + [s[|s| - 1]];
    }
  }

  lemma {:induction false} TrimStartUpper(s: string)
    ensures TrimStart(Upper(s)) == Upper(TrimStart(s))
  {
    if s != "" {
      UpperKeepsBlanks(s[0]);
      if IsSpace(s[0]) {
        assert Upper(s)[1..] == Upper(s[1..]);
        TrimStartUpper(s[1..]);
      }
    }
  }

  lemma {:induction false} TrimEndUpper(s: string)
    ensures TrimEnd(Upper(s)) == Upper(TrimEnd(s))
  {
    if s != "" {
      var init, last := s[..|s| - 1], s[|s| - 1];
      assert s == init + [last];
      UpperJoins(init, [last]);
      assert Upper([last]) == UpperOf(last);
      UpperKeepsBlanks(last);
      if IsSpace(last) {
        assert Upper(s)[..|Upper(s)| - 1] == Upper(init);
        TrimEndUpper(init);
      }
    }
  }

  /** Blanks trimmed after upper-casing were typed as blanks, so what is left is what the rest becomes. */
  lemma NormalFormWasTyped(typed: string)
    ensures ReadsAs(typed, Normalize(typed))
  {
    TrimStartUpper(typed);
    TrimEndUpper(TrimStart(typed));
    var before := TrimStartCuts(typed);
    var after := TrimEndCuts(TrimStart(typed));
    var core := TrimEnd(TrimStart(typed));
    assert typed == before + core + after;
    assert Upper(core) == Normalize(typed);
  }

  /** The accepted spellings of a proper serial are exactly those that normalise to it. */
  lemma SpellingsOf(typed: string, serial: string)
    requires Proper(serial)
    ensures ReadsAs(typed, serial) <==> Normalize(typed) == serial
  {
    if ReadsAs(typed, serial) {
      var before, core, after :| typed == before + core + after && Blank(before) && Blank(after)
        && Upper(core) == serial;
      NormalizeRecovers(before, core, after, serial);
    }
    NormalFormWasTyped(typed);
  }

  /**
   * Verification recognises exactly what the table holds, edited or not: a text is known if and only
   * if it is a spelling of some row's serial with any blanks around it; then it is revoked if the row
   * is, and else valid or a mismatch as the row's signature covers the row's other columns or does not.
   */
  lemma VerifyRecognises(certs: seq<Certificate>, typed: string)
    requires OnePerKey(certs) && ProperSerials(certs)
    ensures forall i :: 0 <= i < |certs| && ReadsAs(typed, certs[i].serial) ==>
      Verify(certs, typed) == if certs[i].revokedAt.Some? then WasRevoked
        else if certs[i].signature == Mac(certs[i].serial, certs[i].key, certs[i].issuedAt) then Valid(certs[i])
        else Mismatch
    ensures Verify(certs, typed) == Unknown <==> forall i :: 0 <= i < |certs| ==> !ReadsAs(typed, certs[i].serial)
    ensures Verify(certs, typed).Valid? ==>
      exists i :: 0 <= i < |certs| && certs[i] == Verify(certs, typed).cert && certs[i].revokedAt.None?
        && ReadsAs(typed, certs[i].serial)
  {
    forall i | 0 <= i < |certs|
      ensures ReadsAs(typed, certs[i].serial) <==> Normalize(typed) == certs[i].serial
    {
      SpellingsOf(typed, certs[i].serial);
    }
    var at := Find(certs, Normalize(typed));
    if at.Some? {
      assert certs[at.value].serial == Normalize(typed);
      assert forall i :: 0 <= i < |certs| && certs[i].serial == Normalize(typed) ==> i == at.value;
    }
  }

  lemma ReadsAsItself(serial: string)
    requires Proper(serial)
    ensures ReadsAs(serial, serial)
  {
    CapitalStands(serial);
    assert serial == "" + serial + "";
  }

  /** A serial as printed verifies, while its certificate is not revoked. */
  lemma PrintedVerifies(certs: seq<Certificate>, i: nat)
    requires OnePerKey(certs) && WellSigned(certs) && i < |certs| && certs[i].revokedAt.None?
    ensures Verify(certs, certs[i].serial) == Valid(certs[i])
  {
    ReadsAsItself(certs[i].serial);
    VerifyRecognises(certs, certs[i].serial);
  }

  /** An edit of a signed row under its old signature is caught, whatever columns it touches. */
  lemma EditIsCaught(certs: seq<Certificate>, i: nat, key: Key, serial: string, issuedAt: nat, typed: string)
    requires WellSigned(certs) && i < |certs| && certs[i].revokedAt.None?
    requires var edited := certs[i := certs[i].(key := key, serial := serial, issuedAt := issuedAt)];
      OnePerKey(edited) && ProperSerials(edited)
    requires ReadsAs(typed, serial)
    ensures var edited := certs[i := certs[i].(key := key, serial := serial, issuedAt := issuedAt)];
      Verify(edited, typed) == if edited == certs then Valid(certs[i]) else Mismatch
  {
    var edited := certs[i := certs[i].(key := key, serial := serial, issuedAt := issuedAt)];
    VerifyRecognises(edited, typed);
    assert edited[i].serial == serial;
    if edited[i] == certs[i] {
      assert edited == certs;
    }
  }

  // ---- a serial in small letters ----------------------------------------------------------------------

  /** Each character as it stands, or the small form of a capital. */
  predicate SomeLowered(typed: string, serial: string) {
    |typed| == |serial| && forall i :: 0 <= i < |serial| ==>
      typed[i] == serial[i] || ('A' <= serial[i] <= 'Z' && typed[i] as int == serial[i] as int + 32)
  }

  predicate PlainBlank(s: string) {
    forall i :: 0 <= i < |s| ==> s[i] in " \t\n\r"
  }

  lemma {:induction false} LoweredReads(typed: string, serial: string)
    requires SomeLowered(typed, serial) && Capital(serial)
    ensures Upper(typed) == serial
  {
    if serial != "" {
      LoweredReads(typed[1..], serial[1..]);
      assert serial == [serial[0]] + serial[1..];
    }
  }

  /**
   * A minted serial with any of its letters in lower case, and blanks around it, is that serial, and
   * its unrevoked certificate verifies.
   */
  lemma LowerCaseVerifies(certs: seq<Certificate>, i: nat, year: nat, bytes: seq<nat>, before: string, typed: string,
      after: string)
    requires OnePerKey(certs) && WellSigned(certs) && |bytes| == 12
    requires i < |certs| && certs[i].serial == NewSerial(year, bytes) && certs[i].revokedAt.None?
    requires SomeLowered(typed, NewSerial(year, bytes)) && PlainBlank(before) && PlainBlank(after)
    ensures Normalize(before + typed + after) == certs[i].serial
    ensures Verify(certs, before + typed + after) == Valid(certs[i])
  {
    NewSerialIsProper(year, bytes);
    LoweredReads(typed, certs[i].serial);
    NormalizeRecovers(before, typed, after, certs[i].serial);
    assert ReadsAs(before + typed + after, certs[i].serial);
    VerifyRecognises(certs, before + typed + after);
  }

  // ---- revocation -------------------------------------------------------------------------------------

  /** Revoking marks the row with that serial, and no other, and changes nothing else of it. */
  lemma RevokeMarks(certs: seq<Certificate>, serial: string, now: nat)
    requires OnePerKey(certs)
    ensures var after := Revoke(certs, serial, now);
      && |after| == |certs|
      && forall i :: 0 <= i < |certs| ==>
           after[i] == if certs[i].serial == serial then certs[i].(revokedAt := Some(now)) else certs[i]
  {
  }
}
