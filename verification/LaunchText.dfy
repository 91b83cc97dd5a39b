/** Requests and achievement configs as the bytes in their files. */
module LaunchText {
  import opened Bytes
  import opened Wrappers
  import opened GameId
  import opened JsonText
  import opened JsonRoundTrip
  import opened LaunchRequest

  const MAX_REQUEST: nat := 65536

  /** The printed request and a newline. */
  function Text(root: Json): ByteString {
    Render(root, false, 0) + [NEWLINE]
  }

  /** Reading a file: at most so many bytes, and nothing behind the tree but blanks. */
  function Load(bytes: ByteString): Option<Json> {
    if |bytes| == 0 || |bytes| > MAX_REQUEST then None
    else
      match ParseDocument(bytes + [0], true)
      case None => None
      case Some((t, _)) => Some(t)
  }

  lemma {:induction false} PrintableLoads(t: Json)
    requires Printable(t) && Nesting(t) <= NESTING_LIMIT
    ensures Load(Text(t)) == if |Text(t)| <= MAX_REQUEST then Some(t) else None
  {
    var tail := [NEWLINE, 0];
    var s := Text(t) + [0];
    assert Stops(tail);
    hide Render, Printable, Nesting, ParseValue, ParseDocument;
    assert s == Render(t, false, 0) + tail;
    RenderStart(t, false, 0);
    ParseRendered(t, false, 0, 0, tail);
    BlankTail(s, t, tail);
  }

  lemma {:induction false} BlankTail(s: ByteString, t: Json, tail: ByteString)
    requires s != [] && s[0] > 32 && s[0] != 0xEF && tail == [NEWLINE, 0]
    requires ParseValue(s, 0) == Some((t, tail))
    ensures ParseDocument(s, true) == Some((t, [0]))
  {
    hide ParseValue;
    assert SkipBom(s) == s;
    var last: ByteString := [0];
    assert last[1..] == [] && TrimBlanks([]) == [] && TrimBlanks(last) == [];
    assert tail[1..] == last && TrimBlanks(tail) == [] && tail[|tail| - 1..] == last;
    assert Skip(tail) == last;
  }

  // ----- A valid request can be printed -----

  predicate Scalar(t: Json) {
    !t.Array? && !t.Object?
  }

  lemma {:induction false} FlatArray(t: Json, i: nat)
    requires t.Array? && i <= |t.items| && forall k | 0 <= k < |t.items| :: Scalar(t.items[k])
    ensures DeepestItem(t, i) == 0
    decreases |t.items| - i
  {
    if i < |t.items| {
      FlatArray(t, i + 1);
    }
  }

  lemma {:induction false} MembersUpTo(t: Json, i: nat, limit: nat)
    requires t.Object? && i <= |t.members| && forall k | 0 <= k < |t.members| :: Nesting(t.members[k].value) <= limit
    ensures DeepestMember(t, i) <= limit
    decreases |t.members| - i
  {
    if i < |t.members| {
      MembersUpTo(t, i + 1, limit);
    }
  }

  lemma {:induction false} SafeIsNulFree(text: ByteString)
    requires SafeText(text)
    ensures 0 !in text
  {
  }

  lemma {:induction false} ConfigsPrintable(configs: Json)
    requires configs.Array? && forall i | 0 <= i < |configs.items| :: ValidConfig(configs.items[i])
    ensures Printable(configs) && Nesting(configs) <= 1
  {
    hide SafeText;
    forall i | 0 <= i < |configs.items|
      ensures Printable(configs.items[i]) && Scalar(configs.items[i])
    {
      SafeIsNulFree(configs.items[i].text);
    }
    FlatArray(configs, 0);
  }

  lemma {:induction false} PolicyPrintable(policy: Json)
    requires ValidPolicy(policy)
    ensures Printable(policy) && Nesting(policy) <= 1
  {
    hide PolicyFields, PolicyKeys, Field;
    var members := policy.members;
    PolicyKeysNulFree();
    forall i | 0 <= i < |members|
      ensures 0 !in members[i].key && Printable(members[i].value) && Nesting(members[i].value) <= 0
    {
      FieldAt(members, i);
      PolicyFieldPrintable(members, members[i].key, members[i].value);
    }
    MembersUpTo(policy, 0, 0);
  }

  lemma {:induction false} PolicyKeysNulFree()
    ensures forall key | key in PolicyKeys() :: (0 as Byte) !in key
  {
  }

  lemma {:induction false} PolicyFieldPrintable(members: seq<Member>, key: ByteString, value: Json)
    requires ValidPolicy(Object(members)) && key in PolicyKeys() && Field(members, key) == Some(value)
    ensures Printable(value) && Scalar(value)
  {
    hide Field, OnlyKeys, PolicyFields, Printable;
    assert key == ENABLED || key == MODE || key == TRANSPORT || key == RA_GAME_ID || key == CORE_CERTIFICATION;
    hide ENABLED, MODE, TRANSPORT, RA_GAME_ID, CORE_CERTIFICATION;
    PolicyValues(Field(members, ENABLED), Field(members, MODE), Field(members, TRANSPORT), Field(members, RA_GAME_ID),
                 Field(members, CORE_CERTIFICATION));
  }

  lemma {:induction false} PolicyValues(enabled: Option<Json>, mode: Option<Json>, transport: Option<Json>,
                                        game: Option<Json>,
                                        certification: Option<Json>)
    requires PolicyFields(enabled, mode, transport, game, certification)
    ensures Plainly(enabled) && Plainly(mode) && Plainly(transport) && Plainly(game) && Plainly(certification)
  {
    hide DISABLED, SOFTCORE, HARDCORE, DIRECT, PROXY, UNAVAILABLE, VERIFIED, BEST_EFFORT, INCOMPATIBLE, UNTESTED,
      NOT_APPLICABLE;
    WordsNulFree();
    hide IsOneOf, Plainly;
    ListedIsPlain(mode, [DISABLED, SOFTCORE, HARDCORE]);
    ListedIsPlain(transport, [DIRECT, PROXY, UNAVAILABLE]);
    ListedIsPlain(certification, [VERIFIED, BEST_EFFORT, INCOMPATIBLE, UNTESTED, NOT_APPLICABLE]);
    NoTextIsPlain(enabled, game);
  }

  ghost predicate Plainly(field: Option<Json>) {
    field.Some? && Printable(field.value) && Scalar(field.value)
  }

  lemma {:induction false} WordsNulFree()
    ensures (0 as Byte) !in DISABLED && (0 as Byte) !in SOFTCORE && (0 as Byte) !in HARDCORE
    ensures (0 as Byte) !in DIRECT && (0 as Byte) !in PROXY && (0 as Byte) !in UNAVAILABLE
    ensures (0 as Byte) !in VERIFIED && (0 as Byte) !in BEST_EFFORT && (0 as Byte) !in INCOMPATIBLE
    ensures (0 as Byte) !in UNTESTED && (0 as Byte) !in NOT_APPLICABLE
  {
    ModesNulFree();
    CertificationsNulFree();
    hide *;
  }

  lemma {:induction false} ModesNulFree()
    ensures (0 as Byte) !in DISABLED && (0 as Byte) !in SOFTCORE && (0 as Byte) !in HARDCORE
    ensures (0 as Byte) !in DIRECT && (0 as Byte) !in PROXY && (0 as Byte) !in UNAVAILABLE
  {
  }

  lemma {:induction false} CertificationsNulFree()
    ensures (0 as Byte) !in VERIFIED && (0 as Byte) !in BEST_EFFORT && (0 as Byte) !in INCOMPATIBLE
    ensures (0 as Byte) !in UNTESTED && (0 as Byte) !in NOT_APPLICABLE
  {
  }

  lemma {:induction false} ListedIsPlain(field: Option<Json>, texts: seq<ByteString>)
    requires IsOneOf(field, texts) && forall text | text in texts :: (0 as Byte) !in text
    ensures Plainly(field)
  {
  }

  lemma {:induction false} NoTextIsPlain(enabled: Option<Json>, game: Option<Json>)
    requires IsBool(enabled) && (game == Some(Null) || PositiveInt(game))
    ensures Plainly(enabled) && Plainly(game)
  {
  }

  lemma {:induction false} RequestKeysNulFree()
    ensures forall key | key in RequestKeys() :: (0 as Byte) !in key
  {
    GameKeysNulFree();
    LaunchKeysNulFree();
    hide SCHEMA, GAME_ID, SYSTEM_ID, ROM_PATH, LAUNCHER, EMULATOR_TYPE, CORE, AUTO_LOAD_STATE, APPEND_CONFIGS,
      REQUESTED_RESOLUTION, ENVIRONMENT, ACHIEVEMENTS;
  }

  lemma {:induction false} GameKeysNulFree()
    ensures (0 as Byte) !in SCHEMA && (0 as Byte) !in GAME_ID && (0 as Byte) !in SYSTEM_ID
    ensures (0 as Byte) !in ROM_PATH && (0 as Byte) !in LAUNCHER && (0 as Byte) !in EMULATOR_TYPE
    ensures (0 as Byte) !in CORE
  {
  }

  lemma {:induction false} LaunchKeysNulFree()
    ensures (0 as Byte) !in AUTO_LOAD_STATE && (0 as Byte) !in APPEND_CONFIGS
    ensures (0 as Byte) !in REQUESTED_RESOLUTION && (0 as Byte) !in ENVIRONMENT && (0 as Byte) !in ACHIEVEMENTS
  {
  }

  lemma {:induction false} FieldPrintable(root: Json, key: ByteString, value: Json)
    requires ValidRequest(root) && key in RequestKeys() && Field(root.members, key) == Some(value)
    ensures Printable(value) && Nesting(value) <= 1
  {
    hide Field, OnlyKeys, ValidPolicy, SafeText, IdOf, NormalPath, ValidConfig, ValidId;
    if key == APPEND_CONFIGS {
      ConfigsPrintable(value);
    } else if key == ACHIEVEMENTS {
      PolicyPrintable(value);
    } else if value.String? {
      TextFieldPrintable(root, key, value.text);
    }
  }

  lemma {:induction false} TextFieldPrintable(root: Json, key: ByteString, text: ByteString)
    requires ValidRequest(root) && key in RequestKeys() && Field(root.members, key) == Some(String(text))
    requires key != APPEND_CONFIGS && key != ACHIEVEMENTS
    ensures 0 !in text
  {
    hide *;
    TextFieldKinds(root, key, text);
    if SafeText(text) {
      SafeIsNulFree(text);
    } else if ValidId(text) {
      IdIsNulFree(text);
    } else {
      EmulatorsNulFree();
    }
  }

  lemma {:induction false} TextFieldKinds(root: Json, key: ByteString, text: ByteString)
    requires ValidRequest(root) && key in RequestKeys() && Field(root.members, key) == Some(String(text))
    requires key != APPEND_CONFIGS && key != ACHIEVEMENTS
    ensures SafeText(text) || ValidId(text) || text == RETROARCH || text == STANDALONE
  {
    hide Field, OnlyKeys, ValidPolicy, IdOf, NormalPath, ValidConfigs, ValidSystem, ValidId, SafeText, RETROARCH,
      STANDALONE, SCHEMA, GAME_ID, SYSTEM_ID, ROM_PATH, LAUNCHER, EMULATOR_TYPE, CORE, AUTO_LOAD_STATE,
      APPEND_CONFIGS, REQUESTED_RESOLUTION, ENVIRONMENT, ACHIEVEMENTS;
  }

  lemma {:induction false} IdIsNulFree(text: ByteString)
    requires ValidId(text)
    ensures 0 !in text
  {
    assert 0 !in text[..14];
  }

  lemma {:induction false} EmulatorsNulFree()
    ensures (0 as Byte) !in RETROARCH && (0 as Byte) !in STANDALONE
  {
  }

  lemma {:induction false} ValidPrintable(root: Json)
    requires ValidRequest(root)
    ensures Printable(root) && Nesting(root) <= 2
  {
    hide *;
    ValidFields(root);
    forall i | 0 <= i < |root.members|
      ensures (0 as Byte) !in root.members[i].key && Printable(root.members[i].value) &&
                Nesting(root.members[i].value) <= 1
    {
      MemberPrintable(root, i);
    }
    MembersUpTo(root, 0, 1);
    ObjectPrintable(root);
  }

  lemma {:induction false} MemberPrintable(root: Json, i: nat)
    requires ValidRequest(root) && root.Object? && i < |root.members| && UniqueKeys(root.members)
    requires OnlyKeys(root.members, RequestKeys())
    ensures (0 as Byte) !in root.members[i].key && Printable(root.members[i].value) &&
              Nesting(root.members[i].value) <= 1
  {
    assert root.members[i].key in RequestKeys();
    hide *;
    RequestKeysNulFree();
    FieldAt(root.members, i);
    FieldPrintable(root, root.members[i].key, root.members[i].value);
  }

  lemma {:induction false} ObjectPrintable(t: Json)
    requires t.Object? && DeepestMember(t, 0) <= 1
    requires forall i | 0 <= i < |t.members| :: (0 as Byte) !in t.members[i].key && Printable(t.members[i].value)
    ensures Printable(t) && Nesting(t) <= 2
  {
    hide DeepestMember;
  }

  /** A valid request that is written can be read back exactly when it is not too long to be read. */
  lemma {:induction false} RequestRoundTrip(root: Json)
    requires ValidRequest(root)
    ensures Load(Text(root)) == if |Text(root)| <= 65536 then Some(root) else None
  {
    hide *;
    ValidPrintable(root);
    Limit();
    PrintableLoads(root);
  }

  /** A request is printed on one line, and nothing is read but a whole document of at most 64 KiB. */
  lemma FileMeans(root: Json, bytes: ByteString)
    ensures Text(root) == Render(root, false, 0) + Ascii("\n")
    ensures Load(bytes) == Some(root) <==>
            0 < |bytes| <= 65536 && ParseDocument(bytes + [0], true).Some? &&
            ParseDocument(bytes + [0], true).value.0 == root
  {
    hide Render, ParseDocument;
    assert Ascii("\n") == [NEWLINE];
  }

  /** Different requests are printed differently. */
  lemma {:induction false} TextInjective(a: Json, b: Json)
    requires ValidRequest(a) && ValidRequest(b) && Text(a) == Text(b)
    ensures a == b
  {
    hide *;
    ValidPrintable(a);
    ValidPrintable(b);
    Limit();
    var tail := [NEWLINE];
    StopsAtNewline();
    ParseRendered(a, false, 0, 0, tail);
    ParseRendered(b, false, 0, 0, tail);
    TextIs(a);
    TextIs(b);
  }

  lemma {:induction false} StopsAtNewline()
    ensures Stops([NEWLINE])
  {
  }

  lemma {:induction false} TextIs(root: Json)
    ensures Text(root) == Render(root, false, 0) + [NEWLINE]
  {
  }

  lemma {:induction false} Limit()
    ensures NESTING_LIMIT == 1000 && MAX_REQUEST == 65536
  {
  }
}
