/** The V1 text codec of atxp.go, which finds its delimiters by first occurrence. */
module TextV1 {
  import opened Bytes
  import opened EnvelopeV2
  import opened Search

  const Tabs: bytes := [9, 9]
  /** Two tabs and "Auth:". */
  const AuthTag: bytes := [9, 9, 65, 117, 116, 104, 58]
  /** "::" */
  const Colons: bytes := [58, 58]
  const Newlines: bytes := [10, 10]

  const UrlText: bytes := [85, 82, 76]
  const DocumentText: bytes := [68, 111, 99, 117, 109, 101, 110, 116]
  const NotificationText: bytes := [78, 111, 116, 105, 102, 105, 99, 97, 116, 105, 111, 110]
  const UnknownText: bytes := [85, 78, 75, 78, 79, 87, 78]

  const URL: int := 0
  const DOCUMENT: int := 1
  const NOTIFICATION: int := 2

  function TypeToString(mt: int): bytes {
    if mt == URL then UrlText
    else if mt == DOCUMENT then DocumentText
    else if mt == NOTIFICATION then NotificationText
    else UnknownText
  }

  function StringToType(text: bytes): int {
    if text == UrlText then URL
    else if text == DocumentText then DOCUMENT
    else if text == NotificationText then NOTIFICATION
    else -1
  }

  // ---------- Encoding ----------

  predicate FilenameFollows(m: Message) {
    m.mt == DOCUMENT && m.filename != []
  }

  function AuthText(m: Message): bytes {
    m.auth.username + Colons + (m.auth.password + if FilenameFollows(m) then Colons + m.filename else [])
  }

  function Encode(m: Message): bytes {
    TypeToString(m.mt) + Tabs + Payload(m) + AuthTag + AuthText(m) + Newlines
  }

  // ---------- Decoding ----------

  /** Deserialize either fills the target, refuses the packet, or indexes out of bounds. */
  datatype Decoded = Filled(msg: Message) | Refused | Panics

  function Decode(buffer: bytes, target: Message): Decoded {
    if buffer == [] then Refused else
    var typeIdx := Index(buffer, Tabs);
    if typeIdx == -1 then Refused else
    var authIdx := Index(buffer, AuthTag);
    if authIdx == -1 then Refused else
    if authIdx < typeIdx + 2 then Panics else
    var tailIdx := Index(buffer, Newlines);
    if tailIdx == -1 then Refused else
    if tailIdx < authIdx + 7 then Panics else
    var parts := Split(buffer[authIdx + 7..tailIdx], Colons);
    if |parts| < 2 then Refused else
    var mt := StringToType(buffer[..typeIdx]);
    Filled(Message(mt, Some(buffer[typeIdx + 2..authIdx]), Auth(parts[0], parts[1]),
                   if mt == DOCUMENT && |parts| > 2 then parts[2] else target.filename))
  }

  // ---------- The code ----------

  /** Encodes, and makes an absent payload an empty one in the message itself. */
  method Serialize(msg: MessageRef?) returns (r: Result<bytes>)
    modifies msg
    ensures msg == null ==> r == Err(ErrInvalidFormat)
    ensures msg != null ==> r == Ok(Encode(old(msg.Value())))
    ensures msg != null ==> msg.Value() == old(msg.Value()).(data := Some(Payload(old(msg.Value()))))
  {
    if msg == null {
      return Err(ErrInvalidFormat);
    }
    var typeText := TypeToString(msg.mt);
    if msg.data.None? {
      msg.data := Some([]);
    }
    var text := typeText + Tabs;
    text := text + msg.data.value + AuthTag;
    var suffix := if msg.mt == DOCUMENT && msg.filename != [] then Colons + msg.filename else [];
    text := text + (msg.auth.username + Colons + (msg.auth.password + suffix));
    text := text + Newlines;
    return Ok(text);
  }

  /** Fills all of the target or, on a refusal, leaves it unchanged; `None` stands for the panic of
      a slice out of bounds, before which nothing is assigned either. */
  method Deserialize(buffer: bytes, msg: MessageRef?) returns (r: Option<Result<()>>)
    modifies msg
    ensures msg == null ==> r == Some(Err(ErrInvalidFormat))
    ensures msg != null ==> match Decode(buffer, old(msg.Value()))
      case Filled(m) => r == Some(Ok(())) && msg.Value() == m
      case Refused => r == Some(Err(ErrInvalidFormat)) && msg.Value() == old(msg.Value())
      case Panics => r == None && msg.Value() == old(msg.Value())
  {
    hide Index, Split;
    if msg == null || buffer == [] {
      return Some(Err(ErrInvalidFormat));
    }
    var typeIdx := Index(buffer, Tabs);
    if typeIdx == -1 {
      return Some(Err(ErrInvalidFormat));
    }
    var authIdx := Index(buffer, AuthTag);
    if authIdx == -1 {
      return Some(Err(ErrInvalidFormat));
    }
    if authIdx < typeIdx + 2 {
      return None;
    }
    var tailIdx := Index(buffer, Newlines);
    if tailIdx == -1 {
      return Some(Err(ErrInvalidFormat));
    }
    if tailIdx < authIdx + 7 {
      return None;
    }
    var parts := Split(buffer[authIdx + 7..tailIdx], Colons);
    if |parts| < 2 {
      return Some(Err(ErrInvalidFormat));
    }
    ghost var m := Decode(buffer, msg.Value()).msg;
    var typeText, data := buffer[..typeIdx], buffer[typeIdx + 2..authIdx];
    assert m.mt == StringToType(typeText) && m.data == Some(data) && m.auth == Auth(parts[0], parts[1]);
    msg.mt := StringToType(typeText);
    msg.auth := Auth(parts[0], parts[1]);
    if msg.mt == DOCUMENT && |parts| > 2 {
      msg.filename := parts[2];
    }
    msg.data := Some(data);
    return Some(Ok(()));
  }

  // ---------- When the round trip is the identity ----------

  predicate EndsWith(s: bytes, c: byte) {
    s != [] && s[|s| - 1] == c
  }

  /** No delimiter occurs inside a field or across the end of one. */
  ghost predicate Unambiguous(m: Message) {
    var user, pass, file := m.auth.username, m.auth.password, m.filename;
    && !Contains(Tabs + Payload(m), AuthTag)
    && !Contains(Payload(m), Newlines) && !Contains(user, Newlines) && !Contains(pass, Newlines)
    && !Contains(user, Colons) && !EndsWith(user, 58) && !Contains(pass, Colons)
    && if FilenameFollows(m) then
         !EndsWith(pass, 58) && !Contains(file, Colons) && !Contains(file, Newlines) && !EndsWith(file, 10)
       else
         !EndsWith(pass, 10)
  }

  /** What else it takes: a type with a text of its own (or -1, the type of the unknown text), a
      payload, and a filename that is sent or that the target already has. */
  predicate Representable(m: Message, target: Message) {
    && -1 <= m.mt <= 2
    && m.data.Some?
    && (FilenameFollows(m) || m.filename == target.filename)
  }

  function BeforeAuth(m: Message): bytes {
    TypeToString(m.mt) + Tabs + Payload(m)
  }

  lemma TypeTextHasNone(mt: int)
    ensures 9 !in TypeToString(mt) && 10 !in TypeToString(mt)
  {
  }

  lemma FindsType(m: Message)
    ensures Index(Encode(m), Tabs) == |TypeToString(m.mt)|
  {
    var text := TypeToString(m.mt);
    var rest := Payload(m) + AuthTag + AuthText(m) + Newlines;
    TypeTextHasNone(m.mt);
    hide TypeToString, AuthText, Index;
    assert Encode(m) == text + Tabs + rest;
    FoundWhereWritten(text, Tabs, rest);
    HeadWithout(text, [9], Tabs);
    assert !Contains([9], Tabs);
    assert Tabs[..1] == [9];
  }

  lemma FindsAuth(m: Message)
    ensures 0 <= Index(Encode(m), AuthTag) <= |BeforeAuth(m)|
    ensures Index(Encode(m), AuthTag) == |BeforeAuth(m)| <==> !Contains(Tabs + Payload(m), AuthTag)
  {
    var text, head := TypeToString(m.mt), Tabs + Payload(m);
    var rest := AuthText(m) + Newlines;
    TypeTextHasNone(m.mt);
    hide TypeToString, AuthText, Index, Contains;
    assert Encode(m) == BeforeAuth(m) + AuthTag + rest;
    FoundWhereWritten(BeforeAuth(m), AuthTag, rest);
    TailWithout(BeforeAuth(m), AuthTag[..6], AuthTag);
    assert BeforeAuth(m) == text + head;
    HeadWithout(text, head, AuthTag);
  }

  lemma FindsTail(m: Message)
    ensures 0 <= Index(Encode(m), Newlines) <= |Encode(m)| - 2
    ensures Index(Encode(m), Newlines) == |Encode(m)| - 2
      <==> !Contains(Payload(m), Newlines) && !Contains(AuthText(m) + [10], Newlines)
  {
    var text, auth := TypeToString(m.mt), AuthText(m);
    var whole := BeforeAuth(m) + AuthTag + auth;
    TypeTextHasNone(m.mt);
    hide TypeToString, AuthText, Index, Contains;
    assert Encode(m) == whole + Newlines + [];
    FoundWhereWritten(whole, Newlines, []);
    assert Newlines[..1] == [10];
    assert whole + [10] == BeforeAuth(m) + AuthTag + (auth + [10]);
    AcrossGap(BeforeAuth(m), AuthTag, auth + [10], Newlines);
    AcrossGap(text, Tabs, Payload(m), Newlines);
    HeadWithout(text, [], Newlines);
    assert text + [] == text;
    NothingInNothing(Newlines);
  }

  lemma NothingInNothing(pat: bytes)
    requires pat != []
    ensures !Contains([], pat)
  {
  }

  /** The auth text ends the packet cleanly. */
  lemma AuthTextClear(m: Message)
    ensures !Contains(AuthText(m) + [10], Newlines) <==>
      && !Contains(m.auth.username, Newlines) && !Contains(m.auth.password, Newlines)
      && if FilenameFollows(m) then !Contains(m.filename, Newlines) && !EndsWith(m.filename, 10)
         else !EndsWith(m.auth.password, 10)
  {
    var user, pass, file := m.auth.username, m.auth.password, m.filename;
    hide Contains;
    if FilenameFollows(m) {
      assert AuthText(m) + [10] == user + Colons + (pass + Colons + (file + [10]));
      AcrossGap(user, Colons, pass + Colons + (file + [10]), Newlines);
      AcrossGap(pass, Colons, file + [10], Newlines);
      DoubledAtEnd(file, 10);
    } else {
      assert AuthText(m) + [10] == user + Colons + (pass + [10]);
      AcrossGap(user, Colons, pass + [10], Newlines);
      DoubledAtEnd(pass, 10);
    }
  }

  /** The parts that Deserialize would read are the fields. */
  ghost predicate PartsAre(m: Message, parts: seq<bytes>) {
    && |parts| >= 2 && parts[0] == m.auth.username && parts[1] == m.auth.password
    && if FilenameFollows(m) then |parts| > 2 && parts[2] == m.filename else |parts| == 2
  }

  ghost predicate ColonsClear(m: Message) {
    && !Contains(m.auth.username, Colons) && !EndsWith(m.auth.username, 58)
    && !Contains(m.auth.password, Colons)
    && (FilenameFollows(m) ==> !EndsWith(m.auth.password, 58) && !Contains(m.filename, Colons))
  }

  lemma SplitsAuth(m: Message)
    ensures PartsAre(m, Split(AuthText(m), Colons)) <==> ColonsClear(m)
  {
    var user, pass, file := m.auth.username, m.auth.password, m.filename;
    hide Split, Contains;
    assert Colons[..1] == [58];
    DoubledAtEnd(user, 58);
    if FilenameFollows(m) {
      SplitAfter(user, Colons, pass + Colons + file);
      assert AuthText(m) == user + Colons + (pass + Colons + file);
      SplitAfter(pass, Colons, file);
      DoubledAtEnd(pass, 58);
      SplitLast(file, Colons);
    } else {
      assert AuthText(m) == user + Colons + pass;
      SplitAfter(user, Colons, pass);
      SplitLast(pass, Colons);
    }
  }

  lemma UnambiguousMeans(m: Message)
    ensures Unambiguous(m) <==>
      && Index(Encode(m), AuthTag) == |BeforeAuth(m)|
      && Index(Encode(m), Newlines) == |Encode(m)| - 2
      && PartsAre(m, Split(AuthText(m), Colons))
  {
    hide Contains, Index, Split, Encode, BeforeAuth, AuthText, PartsAre, EndsWith;
    FindsAuth(m);
    FindsTail(m);
    AuthTextClear(m);
    SplitsAuth(m);
  }

  lemma TypeRoundTrip(mt: int)
    ensures StringToType(TypeToString(mt)) == if -1 <= mt <= 2 then mt else -1
  {
  }

  /** An unambiguous message is read field by field. */
  lemma DecodesFields(m: Message, target: Message)
    requires Unambiguous(m)
    ensures Decode(Encode(m), target) == Filled(Message(if -1 <= m.mt <= 2 then m.mt else -1, Some(Payload(m)), m.auth,
                                                        if FilenameFollows(m) then m.filename else target.filename))
  {
    hide Contains, Index, Split, Unambiguous, TypeToString, StringToType, AuthText;
    UnambiguousMeans(m);
    FindsType(m);
    TypeRoundTrip(m.mt);
    var enc, text := Encode(m), TypeToString(m.mt);
    assert enc[..|text|] == text;
    assert enc[|text| + 2..|BeforeAuth(m)|] == Payload(m);
    assert enc[|BeforeAuth(m)| + 7..|enc| - 2] == AuthText(m);
  }

  /** What is read back as the message itself was found where it was written. */
  lemma ReadBackMeansFound(m: Message, target: Message)
    requires Decode(Encode(m), target) == Filled(m)
    ensures Unambiguous(m)
  {
    hide Contains, Split, Unambiguous, TypeToString, StringToType, EndsWith;
    UnambiguousMeans(m);
    FindsType(m);
    FindsAuth(m);
    FindsTail(m);
    var enc, tail := Encode(m), Index(Encode(m), Newlines);
    var user, pass, file := m.auth.username, m.auth.password, m.filename;
    assert At(enc, Newlines, tail);
    hide Index;
    var start := |BeforeAuth(m)| + 7;
    assert Index(enc, AuthTag) == |BeforeAuth(m)|;
    var read := enc[start..tail];
    var parts := Split(read, Colons);
    SplitCovers(read, Colons);
    assert |enc| == start + |AuthText(m)| + 2;
    assert |read| == |AuthText(m)|;
    assert read == AuthText(m);
  }

  /** Exactly when Deserialize inverts Serialize, for every message and every target. */
  lemma RoundTrip(m: Message, target: Message)
    ensures Decode(Encode(m), target) == Filled(m) <==> Unambiguous(m) && Representable(m, target)
  {
    hide Encode, Decode, Unambiguous;
    if Decode(Encode(m), target) == Filled(m) {
      ReadBackMeansFound(m, target);
    }
    if Unambiguous(m) {
      DecodesFields(m, target);
    }
  }

  /** A document packet on the wire: "Document", "d", user "u", password "p", file "f". */
  lemma KnownPacket()
    ensures Encode(Message(DOCUMENT, Some([100]), Auth([117], [112]), [102]))
      == [68, 111, 99, 117, 109, 101, 110, 116, 9, 9, 100, 9, 9, 65, 117, 116, 104, 58,
          117, 58, 58, 112, 58, 58, 102, 10, 10]
  {
  }

  // ---------- What Deserialize makes of any bytes ----------

  /** The first two tabs, the first auth tag and the first blank line, in this order and apart. */
  ghost predicate Ordered(b: bytes, i: int, a: int, n: int) {
    && First(b, Tabs, i) && First(b, AuthTag, a) && First(b, Newlines, n)
    && i + |Tabs| <= a && a + |AuthTag| <= n
  }

  /** A packet that is no packet: a delimiter is missing, and nothing before it is out of order. */
  ghost predicate Unreadable(b: bytes) {
    || b == []
    || !Contains(b, Tabs)
    || !Contains(b, AuthTag)
    || (exists i, a :: First(b, Tabs, i) && First(b, AuthTag, a) && i + |Tabs| <= a && !Contains(b, Newlines))
    || (exists i, a, n :: Ordered(b, i, a, n) && !Contains(b[a + |AuthTag|..n], Colons))
  }

  lemma FoundAt(b: bytes, pat: bytes)
    ensures forall k :: First(b, pat, k) <==> k == Index(b, pat) && Contains(b, pat)
    ensures Contains(b, pat) ==> First(b, pat, Index(b, pat))
    ensures First(b, pat, Index(b, pat)) ==> 0 <= Index(b, pat) <= |b| - |pat|
    ensures Index(b, pat) >= -1 && (Index(b, pat) == -1 <==> !Contains(b, pat))
  {
    forall k
      ensures First(b, pat, k) <==> k == Index(b, pat) && Contains(b, pat)
    {
      FirstIsIndex(b, pat, k);
    }
  }

  /** Exactly which bytes are refused, for every target. */
  lemma RefusedExactly(b: bytes, target: Message)
    ensures Decode(b, target) == Refused <==> Unreadable(b)
  {
    hide Split, StringToType, Index, First, Contains;
    var i, a, n := Index(b, Tabs), Index(b, AuthTag), Index(b, Newlines);
    FoundAt(b, Tabs);
    FoundAt(b, AuthTag);
    FoundAt(b, Newlines);
    if Ordered(b, i, a, n) {
      FirstPart(b[a + 7..n], Colons, []);
    }
  }

  /** The credentials between the tag and the blank line: a name up to the first "::", a password up
      to the next, and what comes up to a third, if there is a second. */
  ghost predicate Credentials(auth: bytes, user: bytes, pass: bytes, third: Option<bytes>) {
    && Contains(auth, Colons) && UpTo(auth, Colons, user) && |user| + 2 <= |auth|
    && var rest := auth[|user| + 2..];
    && UpTo(rest, Colons, pass)
    && (third.Some? <==> Contains(rest, Colons))
    && (third.Some? ==> |pass| + 2 <= |rest| && UpTo(rest[|pass| + 2..], Colons, third.value))
  }

  /** What is read from where: the type before the first two tabs, the payload between them and the tag,
      and the credentials; a filename only for a document that has a third part. */
  ghost predicate ReadsAt(b: bytes, target: Message, m: Message, i: int, a: int, n: int, third: Option<bytes>) {
    && Ordered(b, i, a, n)
    && m.mt == StringToType(b[..i])
    && m.data == Some(b[i + 2..a])
    && Credentials(b[a + 7..n], m.auth.username, m.auth.password, third)
    && m.filename == if m.mt == DOCUMENT && third.Some? then third.value else target.filename
  }

  ghost predicate Reads(b: bytes, target: Message, m: Message) {
    exists i, a, n, third :: ReadsAt(b, target, m, i, a, n, third)
  }

  predicate FirstThree(parts: seq<bytes>, user: bytes, pass: bytes, third: Option<bytes>) {
    && |parts| >= 2 && parts[0] == user && parts[1] == pass
    && third == if |parts| > 2 then Some(parts[2]) else None
  }

  lemma CredentialsAreParts(auth: bytes, user: bytes, pass: bytes, third: Option<bytes>)
    ensures Credentials(auth, user, pass, third) <==> FirstThree(Split(auth, Colons), user, pass, third)
  {
    hide Split, UpTo, Contains;
    var parts := Split(auth, Colons);
    FirstPart(auth, Colons, user);
    if |parts| > 1 && parts[0] == user {
      SplitUnfolds(auth, Colons);
      var rest := auth[|user| + 2..];
      FirstPart(rest, Colons, pass);
      if |parts| > 2 && parts[1] == pass {
        SplitUnfolds(rest, Colons);
        FirstPart(rest[|pass| + 2..], Colons, if third.Some? then third.value else []);
      }
    }
  }

  /** Exactly what any packet fills a target with, encoding or not. */
  lemma FilledExactly(b: bytes, target: Message, m: Message)
    ensures Decode(b, target) == Filled(m) <==> Reads(b, target, m)
  {
    hide Split, StringToType, Index, Credentials, First, Contains;
    var i, a, n := Index(b, Tabs), Index(b, AuthTag), Index(b, Newlines);
    FoundAt(b, Tabs);
    FoundAt(b, AuthTag);
    FoundAt(b, Newlines);
    if Ordered(b, i, a, n) {
      var auth := b[a + 7..n];
      forall third
        ensures Credentials(auth, m.auth.username, m.auth.password, third)
          <==> FirstThree(Split(auth, Colons), m.auth.username, m.auth.password, third)
      {
        CredentialsAreParts(auth, m.auth.username, m.auth.password, third);
      }
      var parts := Split(auth, Colons);
      var third := if |parts| > 2 then Some(parts[2]) else None;
      assert Decode(b, target) == Filled(m) ==> ReadsAt(b, target, m, i, a, n, third);
    }
  }

  /** The texts of the types, and what any other text stands for. */
  lemma KnownTypes(text: bytes)
    ensures Spells(TypeToString(0), "URL") && Spells(TypeToString(1), "Document")
    ensures Spells(TypeToString(2), "Notification")
    ensures forall mt :: mt != 0 && mt != 1 && mt != 2 ==> Spells(TypeToString(mt), "UNKNOWN")
    ensures StringToType(text) == if Spells(text, "URL") then 0 else if Spells(text, "Document") then 1
                                  else if Spells(text, "Notification") then 2 else -1
  {
  }

  predicate Spells(b: bytes, text: string) {
    |b| == |text| && forall i :: 0 <= i < |b| ==> b[i] == text[i] as int
  }

  /** The delimiters. */
  lemma KnownDelimiters()
    ensures Spells(Tabs, "\t\t") && Spells(AuthTag, "\t\tAuth:") && Spells(Colons, "::") && Spells(Newlines, "\n\n")
  {
  }

  // ---------- When Deserialize indexes out of bounds ----------

  /** The first two tabs begin the auth tag, or stand one byte before it. */
  predicate Slips(b: bytes) {
    var i := Index(b, Tabs);
    i != -1 && (At(b, AuthTag, i) || At(b, AuthTag, i + 1))
  }

  lemma TagHasTabs(b: bytes, i: int)
    requires At(b, AuthTag, i)
    ensures At(b, Tabs, i) && b[i + 6] == 58 && forall k :: i <= k < i + 7 ==> b[k] != 10
  {
    assert b[i..i + 7] == AuthTag;
    assert forall k :: 0 <= k < 7 ==> b[i + k] == AuthTag[k];
    assert b[i..i + 2] == AuthTag[..2] == Tabs;
    assert forall k :: i <= k < i + 7 ==> b[k] == AuthTag[k - i];
  }

  /** On every packet that Receive can hand over, which has its first blank line at its end or none
      at all, Deserialize panics instead of refusing exactly when the packet slips. */
  lemma PanicsExactly(b: bytes, target: Message)
    requires Index(b, Newlines) == |b| - 2 || Index(b, Newlines) == -1
    ensures Decode(b, target) == Panics <==> Slips(b)
  {
    hide Index, Split, StringToType;
    var i, a, tail := Index(b, Tabs), Index(b, AuthTag), Index(b, Newlines);
    assert a != -1 ==> At(b, AuthTag, a);
    if a != -1 {
      TagHasTabs(b, a);
      assert i != -1 && i <= a;
      if tail != -1 {
        assert b[tail..tail + 2] == Newlines;
        assert b[tail] == Newlines[0] && b[tail + 1] == Newlines[1];
        assert tail >= a + 7;
      }
    }
  }

  /** The packet "URL", two tabs, "Auth:u::p" and a blank line has no data between its delimiters. */
  lemma NoDataPanics(target: Message)
    ensures Decode(UrlText + AuthTag + [117] + Colons + [112] + Newlines, target) == Panics
  {
    var b := UrlText + AuthTag + [117] + Colons + [112] + Newlines;
    assert b[0..2] == [85, 82] && b[1..3] == [82, 76] && b[2..4] == [76, 9] && b[3..5] == Tabs;
    assert b[3..10] == AuthTag && At(b, AuthTag, 3) && At(b, Tabs, 3);
    assert !At(b, Tabs, 0) && !At(b, Tabs, 1) && !At(b, Tabs, 2);
    var a := Index(b, AuthTag);
    assert a <= 3;
  }

  /** The offset of the first auth tag in a payload, or its length: the tag that follows it. */
  function FirstTag(payload: bytes): (k: nat)
    ensures k <= |payload|
  {
    FoundWhereWritten(payload, AuthTag, []);
    assert payload + AuthTag + [] == payload + AuthTag;
    Index(payload + AuthTag, AuthTag)
  }

  /** A payload whose own packet makes Deserialize panic: it begins with "Auth:", or with that after
      one tab, or it has a blank line before its first auth tag. */
  ghost predicate Treacherous(payload: bytes) {
    || AuthTag[2..] <= payload
    || AuthTag[1..] <= payload
    || Contains(payload[..FirstTag(payload)], Newlines)
  }

  /** What follows the type and the tabs in a packet. */
  function AfterType(m: Message): bytes {
    Payload(m) + (AuthTag + (AuthText(m) + Newlines))
  }

  lemma EncodedAfterType(m: Message)
    ensures Encode(m) == TypeToString(m.mt) + (Tabs + AfterType(m))
    ensures Encode(m) == (TypeToString(m.mt) + Tabs) + AfterType(m)
  {
    hide TypeToString, AuthText;
  }

  lemma TagAtStart(m: Message)
    ensures AuthTag[2..] <= AfterType(m) <==> AuthTag[2..] <= Payload(m)
    ensures AuthTag[1..] <= AfterType(m) <==> AuthTag[1..] <= Payload(m)
  {
    hide AuthText;
    var d, e := Payload(m), AfterType(m);
    assert e[|d|] == 9;
    assert forall k :: 2 <= k < 7 ==> AuthTag[k] != 9;
    assert |d| == 0 ==> e[1] == 9;
    assert AuthTag[2..] <= e ==> forall k :: 0 <= k < 5 ==> e[k] == AuthTag[2..][k];
    assert AuthTag[1..] <= e ==> forall k :: 0 <= k < 6 ==> e[k] == AuthTag[1..][k];
  }

  lemma TagAtOffsets(e: bytes)
    ensures At(Tabs + e, AuthTag, 0) <==> AuthTag[2..] <= e
    ensures At(Tabs + e, AuthTag, 1) <==> AuthTag[1..] <= e
  {
    assert AuthTag == Tabs + AuthTag[2..] == [9] + AuthTag[1..];
    if |e| >= 5 {
      assert (Tabs + e)[0..7] == Tabs + e[..5];
      assert (Tabs + e)[0..7][2..] == e[..5];
    }
    if |e| >= 6 {
      assert (Tabs + e)[1..8] == [9] + e[..6];
      assert (Tabs + e)[1..8][1..] == e[..6];
    }
  }

  /** Where the first auth tag of a packet lies. */
  lemma TagPosition(m: Message)
    ensures Index(Encode(m), AuthTag) == |TypeToString(m.mt)| +
      if AuthTag[2..] <= Payload(m) then 0 else if AuthTag[1..] <= Payload(m) then 1 else 2 + FirstTag(Payload(m))
  {
    hide TypeToString, AfterType, Index, Encode, At, FirstTag, Contains;
    var text, e := TypeToString(m.mt), AfterType(m);
    EncodedAfterType(m);
    TypeTextHasNone(m.mt);
    TagAtStart(m);
    TagAtOffsets(e);
    FirstTagInRest(m);
    AfterTypeHasTag(m);
    IndexAfterTwo(Tabs, e, AuthTag);
    IndexAfter(text, Tabs + e, AuthTag);
  }

  lemma AfterTypeHasTag(m: Message)
    ensures Contains(AfterType(m), AuthTag) && Contains(Tabs + AfterType(m), AuthTag)
  {
    var d, e := Payload(m), AfterType(m);
    hide AuthText;
    assert e[|d|..|d| + 7] == AuthTag;
    assert At(e, AuthTag, |d|);
    AtShift(Tabs, e, AuthTag, |d|);
  }

  lemma FirstTagInRest(m: Message)
    ensures Index(AfterType(m), AuthTag) == FirstTag(Payload(m))
  {
    var d, e := Payload(m), AfterType(m);
    var rest := AuthText(m) + Newlines;
    hide AuthText;
    FoundWhereWritten(d, AuthTag, rest);
    FoundWhereWritten(d, AuthTag, []);
    assert d + AuthTag + [] == d + AuthTag;
    assert e == d + AuthTag + rest && e == (d + AuthTag) + rest;
    var k, j := FirstTag(d), Index(e, AuthTag);
    AtPrefix(d + AuthTag, rest, AuthTag, k);
    AtPrefix(d + AuthTag, rest, AuthTag, j);
  }

  lemma BlankAt(b: bytes, i: int)
    ensures At(b, Newlines, i) <==> 0 <= i && i + 2 <= |b| && b[i] == 10 && b[i + 1] == 10
  {
    if 0 <= i && i + 2 <= |b| {
      assert b[i..i + 2] == [b[i], b[i + 1]];
    }
  }

  /** The first blank line of a packet comes before its auth tag exactly when the payload has one there. */
  lemma BlankBefore(text: bytes, e: bytes, d: bytes, k: nat, tail: int)
    requires 10 !in text && k <= |d| && d <= e && At(e, AuthTag, k)
    requires var enc := (text + Tabs) + e; tail == Index(enc, Newlines) != -1
    ensures tail < |text| + 2 + k + 7 <==> Contains(d[..k], Newlines)
  {
    var start := |text| + 2;
    var enc := (text + Tabs) + e;
    assert e == d[..k] + e[k..];
    AtShift(text + Tabs, e, AuthTag, k);
    TagHasTabs(enc, start + k);
    assert At(enc, Newlines, tail);
    BlankAt(enc, tail);
    assert forall i :: 0 <= i < start ==> enc[i] != 10;
    hide At;
    if tail < start + k + 7 {
      assert start <= tail && tail + 2 <= start + k;
      AtShift(text + Tabs, e, Newlines, tail - start);
      AtPrefix(d[..k], e[k..], Newlines, tail - start);
    }
    if j :| At(d[..k], Newlines, j) {
      AtPrefix(d[..k], e[k..], Newlines, j);
      AtShift(text + Tabs, e, Newlines, j);
      assert At(enc, Newlines, start + j);
    }
  }

  lemma BlankBeforeTag(m: Message)
    ensures Index(Encode(m), Newlines) < |TypeToString(m.mt)| + 2 + FirstTag(Payload(m)) + 7
      <==> Contains(Payload(m)[..FirstTag(Payload(m))], Newlines)
  {
    var text, e := TypeToString(m.mt), AfterType(m);
    TypeTextHasNone(m.mt);
    FindsTail(m);
    FirstTagInRest(m);
    AfterTypeHasTag(m);
    EncodedAfterType(m);
    assert Payload(m) <= e;
    assert At(e, AuthTag, Index(e, AuthTag));
    hide TypeToString, AfterType, Index, Encode, FirstTag;
    BlankBefore(text, e, Payload(m), FirstTag(Payload(m)), Index(Encode(m), Newlines));
  }

  /** Exactly when Deserialize panics on what Serialize made, for every message and every target. */
  lemma EncodingPanics(m: Message, target: Message)
    ensures Decode(Encode(m), target) == Panics <==> Treacherous(Payload(m))
  {
    hide TypeToString, FirstTag, StringToType, Split, AuthText, Contains;
    FindsType(m);
    FindsAuth(m);
    FindsTail(m);
    TagPosition(m);
    BlankBeforeTag(m);
    assert Encode(m) != [];
    hide Index, Encode;
  }

  /** For instance any packet with the payload "a", a blank line, "b". */
  lemma BlankLinePanics(m: Message, target: Message)
    requires Payload(m) == [97, 10, 10, 98]
    ensures Decode(Encode(m), target) == Panics
  {
    var d := Payload(m);
    hide Decode, Encode, Index;
    assert d + AuthTag + [] == d + AuthTag;
    FoundWhereWritten(d, AuthTag, []);
    TailWithout(d, AuthTag[..6], AuthTag);
    assert d[..FirstTag(d)] == d;
    assert d[1..3] == Newlines && At(d, Newlines, 1);
    EncodingPanics(m, target);
  }
}
