/** The certificate service over its table, proved against Certificates. */
module CertificateServices {
  import opened Base
  import opened Enrollments
  import opened Certificates

  class CertificateService {
    var certs: seq<Certificate>

    ghost predicate Valid()
      reads this
    {
      OnePerKey(certs) && WellSigned(certs)
    }

    constructor ()
      ensures Valid() && certs == []
    {
      certs := [];
    }

    /** `progress` is enrollment-service's answer: None when the learner is not entitled. */
    method Issue(key: Key, progress: Option<nat>, year: nat, bytes: seq<nat>, now: nat)
        returns (cert: Option<Certificate>)
      requires Valid() && |bytes| == 12
      modifies this
      ensures Valid()
      ensures certs == if progress.Some? && progress.value >= 100
        then Mint(old(certs), key, NewSerial(year, bytes), now) else old(certs)
      ensures cert.Some? <==> exists i :: 0 <= i < |certs| && certs[i].key == key
      ensures cert.Some? ==> cert.value in certs && cert.value.key == key
      ensures old(certs) <= certs
      ensures |certs| > |old(certs)| ==> certs == old(certs) + [Certificate(key, NewSerial(year, bytes), now,
        Mac(NewSerial(year, bytes), key, now), None)]
      ensures |certs| > |old(certs)| <==>
        && progress.Some? && progress.value >= 100
        && forall i :: 0 <= i < |old(certs)| ==>
             old(certs)[i].key != key && old(certs)[i].serial != NewSerial(year, bytes)
    {
      for i := 0 to |certs|
        invariant certs == old(certs)
        invariant forall j :: 0 <= j < i ==> certs[j].key != key
      {
        if certs[i].key == key {
          return Some(certs[i]);
        }
      }
      if progress.None? || progress.value < 100 {
        return None;
      }
      var serial := NewSerial(year, bytes);
      var at := Find(certs, serial);
      if at.Some? {
        assert certs[at.value].serial == serial;
        return None;
      }
      NewSerialIsProper(year, bytes);
      MintKeepsTable(certs, key, serial, now);
      var created := Certificate(key, serial, now, Mac(serial, key, now), None);
      certs := certs + [created];
      assert certs[|certs| - 1] == created;
      return Some(created);
    }

    /**
     * A text that spells no serial is unknown; one that spells a serial is judged by its row, also
     * when the row was edited outside the application.
     */
    method VerifySerial(typed: string) returns (verdict: Verdict)
      requires OnePerKey(certs) && ProperSerials(certs)
      ensures verdict == Verify(certs, typed)
      ensures verdict == Unknown <==> forall i :: 0 <= i < |certs| ==> !ReadsAs(typed, certs[i].serial)
      ensures forall i :: 0 <= i < |certs| && ReadsAs(typed, certs[i].serial) ==>
        && (verdict == WasRevoked <==> certs[i].revokedAt.Some?)
        && (verdict == Mismatch <==>
              certs[i].revokedAt.None? && certs[i].signature != Mac(certs[i].serial, certs[i].key, certs[i].issuedAt))
        && (verdict == Verdict.Valid(certs[i]) <==>
              certs[i].revokedAt.None? && certs[i].signature == Mac(certs[i].serial, certs[i].key, certs[i].issuedAt))
      ensures Valid() ==> verdict != Mismatch
    {
      VerifyRecognises(certs, typed);
      var at := Find(certs, Normalize(typed));
      if at.None? {
        return Unknown;
      }
      var cert := certs[at.value];
      if cert.revokedAt.Some? {
        return WasRevoked;
      }
      var expected := Mac(cert.serial, cert.key, cert.issuedAt);
      if expected != cert.signature {
        return Mismatch;
      }
      return Verdict.Valid(cert);
    }

    method RevokeSerial(serial: string, now: nat) returns (found: bool)
      requires Valid()
      modifies this
      ensures Valid() && certs == Revoke(old(certs), serial, now)
      ensures found == exists i :: 0 <= i < |old(certs)| && old(certs)[i].serial == serial
      ensures |certs| == |old(certs)|
      ensures forall i :: 0 <= i < |certs| ==>
        && (old(certs)[i].serial == serial ==> certs[i] == old(certs)[i].(revokedAt := Some(now)))
        && (old(certs)[i].serial != serial ==> certs[i] == old(certs)[i])
      ensures forall typed :: found && ReadsAs(typed, serial) ==> Verify(certs, typed) == WasRevoked
    {
      var at := Find(certs, serial);
      found := at.Some?;
      RevokeKeepsTable(certs, serial, now);
      if found {
        certs := certs[at.value := certs[at.value].(revokedAt := Some(now))];
        forall typed | ReadsAs(typed, serial)
          ensures Verify(certs, typed) == WasRevoked
        {
          VerifyRecognises(certs, typed);
          assert certs[at.value].serial == serial;
        }
      }
    }
  }
}
