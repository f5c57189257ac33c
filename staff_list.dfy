/** The staff list's password column: which text it shows for a staff
    record, and the table of known stored values it falls back on. */
module StaffList {
  import opened Common
  import opened Base64
  import opened AuthService

  /** The fields of a staff record the password column reads: the decoded
      password the employee listing adds, and the stored value. */
  datatype Member = Member(originalPassword: Option<string>, password: Option<string>)

  const ManagerStored: string := "bWFuYWdlcjEyM3NhbHQ="
  const EmployeeStored: string := "ZW1wbG95ZWUxMjNzYWx0"

  /** The hard-coded table from stored values to the sample passwords. */
  function PasswordMap(stored: string): (r: Option<string>)
    ensures r.Some? ==> r.value != ""
    ensures r.Some? <==> stored == ManagerStored || stored == EmployeeStored
  {
    if stored == ManagerStored then Some("manager123")
    else if stored == EmployeeStored then Some("employee123")
    else None
  }

  /** `getPlainTextPassword`: a truthy decoded password is shown as it is;
      otherwise a truthy stored value found in the table shows its
      plaintext, an unknown stored value longer than 20 characters shows
      "[Hashed Password]", and anything else shows "N/A". */
  function GetPlainTextPassword(m: Member): (r: string)
    ensures Present(m.originalPassword) ==> r == m.originalPassword.value
    ensures !Present(m.originalPassword) && Present(m.password) && PasswordMap(m.password.value).Some? ==>
      r == PasswordMap(m.password.value).value
    ensures !Present(m.originalPassword) && Present(m.password) && PasswordMap(m.password.value).None? ==>
      r == (if |m.password.value| > 20 then "[Hashed Password]" else "N/A")
    ensures !Present(m.originalPassword) && !Present(m.password) ==> r == "N/A"
  {
    if Present(m.originalPassword) then m.originalPassword.value
    else if Present(m.password) then
      match PasswordMap(m.password.value)
      case Some(plain) => plain
      case None => if |m.password.value| > 20 then "[Hashed Password]" else "N/A"
    else "N/A"
  }

  // ----- the table agrees with the password encoding -----

  /** The encoding of three or more bytes is the four characters of
      their first group followed by the encoding of the rest. */
  lemma EncodeGroupAt(b: seq<Byte>, s: string)
    requires |b| >= 3 && |s| >= 4
    requires s[0] == CharOf(Sextet0(b[0])) && s[1] == CharOf(Sextet1(b[0], b[1]))
    requires s[2] == CharOf(Sextet2(b[1], b[2])) && s[3] == CharOf(Sextet3(b[2]))
    requires EncodeCore(b[3..]) == s[4..]
    ensures EncodeCore(b) == s
  {
    assert s == s[..4] + s[4..];
  }

  /** The bytes of a Latin-1 string are its character codes. */
  lemma BytesOf(s: string, b: seq<Byte>)
    requires IsLatin1(s) && |b| == |s|
    requires forall i :: 0 <= i < |s| ==> b[i] == s[i] as int
    ensures ToBytes(s) == b
  {
  }

  lemma EmployeeBytes()
    ensures IsLatin1("employee123salt")
    ensures ToBytes("employee123salt") == [101, 109, 112, 108, 111, 121, 101, 101, 49, 50, 51, 115, 97, 108, 116]
  {
    var s := "employee123salt";
    var b: seq<Byte> := [101, 109, 112, 108, 111, 121, 101, 101, 49, 50, 51, 115, 97, 108, 116];
    assert s[0] == 'e' && s[1] == 'm' && s[2] == 'p' && s[3] == 'l' && s[4] == 'o';
    assert s[5] == 'y' && s[6] == 'e' && s[7] == 'e' && s[8] == '1' && s[9] == '2';
    assert s[10] == '3' && s[11] == 's' && s[12] == 'a' && s[13] == 'l' && s[14] == 't';
    BytesOf(s, b);
  }

  // The encodings are built three bytes at a time, from the end.

  lemma EmployeeSuffix4(b: seq<Byte>, s: string)
    requires b == [97, 108, 116] && s == "YWx0"
    ensures EncodeCore(b) == s
  {
    assert b[3..] == [] && s[4..] == "";
    EncodeGroupAt(b, s);
  }

  lemma EmployeeSuffix3(b: seq<Byte>, s: string)
    requires b == [50, 51, 115, 97, 108, 116] && s == "MjNzYWx0"
    ensures EncodeCore(b) == s
  {
    EmployeeSuffix4(b[3..], s[4..]);
    EncodeGroupAt(b, s);
  }

  lemma EmployeeSuffix2(b: seq<Byte>, s: string)
    requires b == [101, 101, 49, 50, 51, 115, 97, 108, 116] && s == "ZWUxMjNzYWx0"
    ensures EncodeCore(b) == s
  {
    EmployeeSuffix3(b[3..], s[4..]);
    EncodeGroupAt(b, s);
  }

  lemma EmployeeSuffix1(b: seq<Byte>, s: string)
    requires b == [108, 111, 121, 101, 101, 49, 50, 51, 115, 97, 108, 116] && s == "bG95ZWUxMjNzYWx0"
    ensures EncodeCore(b) == s
  {
    EmployeeSuffix2(b[3..], s[4..]);
    EncodeGroupAt(b, s);
  }

  lemma EmployeeSuffix0(b: seq<Byte>, s: string)
    requires b == [101, 109, 112, 108, 111, 121, 101, 101, 49, 50, 51, 115, 97, 108, 116] && s == "ZW1wbG95ZWUxMjNzYWx0"
    ensures EncodeCore(b) == s
  {
    EmployeeSuffix1(b[3..], s[4..]);
    EncodeGroupAt(b, s);
  }

  lemma ManagerSuffix4(b: seq<Byte>, s: string)
    requires b == [108, 116] && s == "bHQ"
    ensures EncodeCore(b) == s
  {

  }

  lemma ManagerSuffix3(b: seq<Byte>, s: string)
    requires b == [51, 115, 97, 108, 116] && s == "M3NhbHQ"
    ensures EncodeCore(b) == s
  {
    ManagerSuffix4(b[3..], s[4..]);
    EncodeGroupAt(b, s);
  }

  lemma ManagerSuffix2(b: seq<Byte>, s: string)
    requires b == [114, 49, 50, 51, 115, 97, 108, 116] && s == "cjEyM3NhbHQ"
    ensures EncodeCore(b) == s
  {
    ManagerSuffix3(b[3..], s[4..]);
    EncodeGroupAt(b, s);
  }

  lemma ManagerSuffix1(b: seq<Byte>, s: string)
    requires b == [97, 103, 101, 114, 49, 50, 51, 115, 97, 108, 116] && s == "YWdlcjEyM3NhbHQ"
    ensures EncodeCore(b) == s
  {
    ManagerSuffix2(b[3..], s[4..]);
    EncodeGroupAt(b, s);
  }

  lemma ManagerSuffix0(b: seq<Byte>, s: string)
    requires b == [109, 97, 110, 97, 103, 101, 114, 49, 50, 51, 115, 97, 108, 116] && s == "bWFuYWdlcjEyM3NhbHQ"
    ensures EncodeCore(b) == s
  {
    ManagerSuffix1(b[3..], s[4..]);
    EncodeGroupAt(b, s);
  }

  lemma ManagerBytes()
    ensures IsLatin1("manager123salt")
    ensures ToBytes("manager123salt") == [109, 97, 110, 97, 103, 101, 114, 49, 50, 51, 115, 97, 108, 116]
  {
    var s := "manager123salt";
    var b: seq<Byte> := [109, 97, 110, 97, 103, 101, 114, 49, 50, 51, 115, 97, 108, 116];
    assert s[0] == 'm' && s[1] == 'a' && s[2] == 'n' && s[3] == 'a' && s[4] == 'g';
    assert s[5] == 'e' && s[6] == 'r' && s[7] == '1' && s[8] == '2' && s[9] == '3';
    assert s[10] == 's' && s[11] == 'a' && s[12] == 'l' && s[13] == 't';
    BytesOf(s, b);
  }

  /** The encoding of a password, from the bytes of the salted password
      and their unpadded encoding. */
  lemma HashFromParts(p: string, salted: string, bytes: seq<Byte>, core: string, stored: string)
    requires salted == p + Salt && IsLatin1(salted) && ToBytes(salted) == bytes
    requires EncodeCore(bytes) == core && stored == core + Padding(|bytes|)
    ensures HashPassword(p) == Some(stored)
  {
    SaltedLatin1(p);
  }

  /** The table's entry for "employee123" is that password's encoding. */
  lemma EmployeeEntryIsHash(p: string)
    requires p == "employee123"
    ensures HashPassword(p) == Some(EmployeeStored)
  {
    var salted, bytes, core := "employee123salt", [101, 109, 112, 108, 111, 121, 101, 101, 49, 50, 51, 115, 97, 108, 116],
                               "ZW1wbG95ZWUxMjNzYWx0";
    assert p + Salt == salted;
    assert EmployeeStored == core + Padding(|bytes|);
    EmployeeBytes();
    EmployeeSuffix0(bytes, core);
    HashFromParts(p, salted, bytes, core, EmployeeStored);
  }

  /** The table's entry for "manager123" is that password's encoding: 14
      bytes leave a 2-byte tail, padded with one '='. */
  lemma ManagerEntryIsHash(p: string)
    requires p == "manager123"
    ensures HashPassword(p) == Some(ManagerStored)
  {
    var salted, bytes, core := "manager123salt", [109, 97, 110, 97, 103, 101, 114, 49, 50, 51, 115, 97, 108, 116],
                               "bWFuYWdlcjEyM3NhbHQ";
    assert p + Salt == salted;
    assert ManagerStored == core + Padding(|bytes|);
    ManagerBytes();
    ManagerSuffix0(bytes, core);
    HashFromParts(p, salted, bytes, core, ManagerStored);
  }

  /** Every stored value in the table is the encoding of the plaintext it
      maps to. */
  lemma MapAgreesWithHash(stored: string)
    requires PasswordMap(stored).Some?
    ensures HashPassword(PasswordMap(stored).value) == Some(stored)
  {
    if stored == ManagerStored {
      ManagerEntryIsHash(PasswordMap(stored).value);
    } else {
      EmployeeEntryIsHash(PasswordMap(stored).value);
    }
  }

  /** An account whose password is one of the sample passwords shows that
      password even when the decoded field is missing. */
  lemma ShowsSamplePassword(p: string)
    requires p == "manager123" || p == "employee123"
    ensures HashPassword(p).Some?
    ensures GetPlainTextPassword(Member(None, HashPassword(p))) == p
  {
    if p == "manager123" {
      ManagerEntryIsHash(p);
    } else {
      EmployeeEntryIsHash(p);
    }
  }
}
