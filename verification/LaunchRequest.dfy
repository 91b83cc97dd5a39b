/** The launch request: a JSON object with a fixed set of fields, and what makes it valid. */
module LaunchRequest {
  import opened Bytes
  import opened Wrappers
  import opened GameId
  import opened JsonNumber
  import opened JsonText
  import JsonCompare

  const PATH_SIZE: nat := 4096

  const SCHEMA: ByteString := Ascii("schema")
  const GAME_ID: ByteString := Ascii("game_id")
  const SYSTEM_ID: ByteString := Ascii("system_id")
  const ROM_PATH: ByteString := Ascii("rom_path")
  const LAUNCHER: ByteString := Ascii("launcher")
  const EMULATOR_TYPE: ByteString := Ascii("emulator_type")
  const CORE: ByteString := Ascii("core")
  const AUTO_LOAD_STATE: ByteString := Ascii("auto_load_state")
  const APPEND_CONFIGS: ByteString := Ascii("append_configs")
  const REQUESTED_RESOLUTION: ByteString := Ascii("requested_resolution")
  const ENVIRONMENT: ByteString := Ascii("environment")
  const ACHIEVEMENTS: ByteString := Ascii("achievements")
  const ENABLED: ByteString := Ascii("enabled")
  const MODE: ByteString := Ascii("mode")
  const TRANSPORT: ByteString := Ascii("transport")
  const RA_GAME_ID: ByteString := Ascii("ra_game_id")
  const CORE_CERTIFICATION: ByteString := Ascii("core_certification")
  const RETROARCH: ByteString := Ascii("retroarch")
  const STANDALONE: ByteString := Ascii("standalone")
  const DISABLED: ByteString := Ascii("disabled")
  const SOFTCORE: ByteString := Ascii("softcore")
  const HARDCORE: ByteString := Ascii("hardcore")
  const DIRECT: ByteString := Ascii("direct")
  const PROXY: ByteString := Ascii("proxy")
  const UNAVAILABLE: ByteString := Ascii("unavailable")
  const VERIFIED: ByteString := Ascii("verified")
  const BEST_EFFORT: ByteString := Ascii("best_effort")
  const INCOMPATIBLE: ByteString := Ascii("incompatible")
  const UNTESTED: ByteString := Ascii("untested")
  const NOT_APPLICABLE: ByteString := Ascii("not_applicable")
  const EMU_ROOT: ByteString := Ascii("/mnt/SDCARD/Emu/")
  const LAUNCH_SH: ByteString := Ascii("/launch.sh")
  const SD_ROOT: ByteString := Ascii("/mnt/SDCARD/")
  const SESSION_ROOT: ByteString := Ascii("/tmp/bloom-session/")
  const CORE_SUFFIX: ByteString := Ascii("_libretro.so")
  const DOTS_INSIDE: ByteString := Ascii("/../")
  const DOTS_LAST: ByteString := Ascii("/..")

  // ----- Texts -----

  predicate StandsAt(text: ByteString, part: ByteString, i: nat) {
    i + |part| <= |text| && text[i..i + |part|] == part
  }

  ghost predicate Contains(text: ByteString, part: ByteString) {
    exists i: nat :: StandsAt(text, part, i)
  }

  predicate EndsWith(text: ByteString, suffix: ByteString) {
    |text| >= |suffix| && text[|text| - |suffix|..] == suffix
  }

  /** Non-empty, without control characters and without a ".." behind a slash. */
  ghost predicate SafeText(text: ByteString) {
    && text != [] && (forall i | 0 <= i < |text| :: text[i] >= 0x20 && text[i] != 0x7f)
    && !Contains(text, DOTS_INSIDE) && !EndsWith(text, DOTS_LAST)
  }

  method IsSafeText(text: ByteString) returns (safe: bool)
    ensures safe <==> SafeText(text)
  {
    if text == [] {
      return false;
    }
    var p := 0;
    while p < |text|
      invariant 0 <= p <= |text| && forall i | 0 <= i < p :: text[i] >= 0x20 && text[i] != 0x7f
    {
      if text[p] < 0x20 || text[p] == 0x7f {
        return false;
      }
      p := p + 1;
    }
    var inside := Search(text, DOTS_INSIDE);
    return !inside && !EndsWith(text, DOTS_LAST);
  }

  method Search(text: ByteString, part: ByteString) returns (found: bool)
    ensures found <==> Contains(text, part)
  {
    var i := 0;
    while i + |part| <= |text|
      invariant 0 <= i && forall k: nat | k < i :: !StandsAt(text, part, k)
    {
      if StandsAt(text, part, i) {
        return true;
      }
      i := i + 1;
    }
    return false;
  }

  ghost predicate PathUnder(text: ByteString, prefix: ByteString) {
    SafeText(text) && prefix <= text
  }

  predicate CoreByte(b: Byte) {
    0x41 <= b <= 0x5a || 0x61 <= b <= 0x7a || 0x30 <= b <= 0x39 || b == 0x5f || b == 0x2d || b == 0x2e
  }

  ghost predicate ValidCore(text: ByteString) {
    && SafeText(text) && |text| > |CORE_SUFFIX| && EndsWith(text, CORE_SUFFIX)
    && forall i | 0 <= i < |text| :: CoreByte(text[i])
  }

  method IsValidCore(text: ByteString) returns (valid: bool)
    ensures valid <==> ValidCore(text)
  {
    var safe := IsSafeText(text);
    hide SafeText;
    if !safe || |text| <= |CORE_SUFFIX| || !EndsWith(text, CORE_SUFFIX) {
      return false;
    }
    var p := 0;
    while p < |text|
      invariant 0 <= p <= |text| && forall i | 0 <= i < p :: CoreByte(text[i])
    {
      if !CoreByte(text[p]) {
        return false;
      }
      p := p + 1;
    }
    return true;
  }

  // ----- Fields -----

  function Field(members: seq<Member>, key: ByteString): Option<Json> {
    var at := JsonCompare.Find(members, key, true, 0);
    if at.Some? then Some(members[at.value].value) else None
  }

  ghost predicate OnlyKeys(members: seq<Member>, allowed: seq<ByteString>) {
    && (forall i | 0 <= i < |members| :: members[i].key in allowed)
    && (forall i, j | 0 <= i < j < |members| :: members[i].key != members[j].key)
  }

  /** Every field is known and none comes twice. */
  method HasOnlyKeys(members: seq<Member>, allowed: seq<ByteString>) returns (ok: bool)
    ensures ok <==> OnlyKeys(members, allowed)
  {
    var item := 0;
    while item < |members|
      invariant 0 <= item <= |members| && forall i | 0 <= i < item :: members[i].key in allowed
      invariant forall i, j | 0 <= i < item && i < j < |members| :: members[i].key != members[j].key
    {
      if members[item].key !in allowed {
        return false;
      }
      var other := item + 1;
      while other < |members|
        invariant item < other <= |members|
        invariant forall j | item < j < other :: members[item].key != members[j].key
      {
        if members[item].key == members[other].key {
          return false;
        }
        other := other + 1;
      }
      item := item + 1;
    }
    return true;
  }

  function RequestKeys(): seq<ByteString> {
    [SCHEMA, GAME_ID, SYSTEM_ID, ROM_PATH, LAUNCHER, EMULATOR_TYPE, CORE, AUTO_LOAD_STATE, APPEND_CONFIGS,
     REQUESTED_RESOLUTION, ENVIRONMENT, ACHIEVEMENTS]
  }

  function PolicyKeys(): seq<ByteString> {
    [ENABLED, MODE, TRANSPORT, RA_GAME_ID, CORE_CERTIFICATION]
  }

  predicate IsText(value: Option<Json>) {
    value.Some? && value.value.String?
  }

  predicate IsOneOf(value: Option<Json>, texts: seq<ByteString>) {
    value.Some? && value.value.String? && value.value.text in texts
  }

  predicate IsBool(value: Option<Json>) {
    value == Some(True) || value == Some(False)
  }

  predicate PositiveInt(value: Option<Json>) {
    value.Some? && value.value.Number? && IsInteger(value.value.number) && ToInt(value.value.number) > 0
  }

  // ----- The achievement policy -----

  ghost predicate ValidPolicy(policy: Json) {
    && policy.Object? && OnlyKeys(policy.members, PolicyKeys())
    && PolicyFields(Field(policy.members, ENABLED), Field(policy.members, MODE), Field(policy.members, TRANSPORT),
                    Field(policy.members, RA_GAME_ID), Field(policy.members, CORE_CERTIFICATION))
  }

  predicate PolicyFields(enabled: Option<Json>, mode: Option<Json>, transport: Option<Json>, game: Option<Json>,
                         certification: Option<Json>) {
    && IsBool(enabled) && IsOneOf(mode, [DISABLED, SOFTCORE, HARDCORE])
    && IsOneOf(transport, [DIRECT, PROXY, UNAVAILABLE])
    && (game == Some(Null) || PositiveInt(game))
    && IsOneOf(certification, [VERIFIED, BEST_EFFORT, INCOMPATIBLE, UNTESTED, NOT_APPLICABLE])
    && (enabled == Some(True) ==> mode.value.text != DISABLED && PositiveInt(game))
    && (enabled == Some(False) ==> mode.value.text == DISABLED)
    && (mode.value.text == HARDCORE ==> transport.value.text == DIRECT)
  }

  method IsValidPolicy(policy: Json) returns (ok: bool)
    ensures ok <==> ValidPolicy(policy)
  {
    if !policy.Object? {
      return false;
    }
    var known := HasOnlyKeys(policy.members, PolicyKeys());
    return known && PolicyFields(Field(policy.members, ENABLED), Field(policy.members, MODE),
                                 Field(policy.members, TRANSPORT),
                                 Field(policy.members, RA_GAME_ID), Field(policy.members, CORE_CERTIFICATION));
  }

  // ----- The request -----

  ghost predicate ValidConfig(config: Json) {
    config.String? && (PathUnder(config.text, SD_ROOT) || PathUnder(config.text, SESSION_ROOT))
  }

  /** The fields that say what to start. */
  ghost predicate ValidGame(members: seq<Member>) {
    var gameId, systemId, romPath := Field(members, GAME_ID), Field(members, SYSTEM_ID), Field(members, ROM_PATH);
    && IsText(gameId) && ValidId(gameId.value.text)
    && IsText(systemId) && SafeText(systemId.value.text) && ValidSystem(systemId.value.text)
    && IsText(romPath) && PathUnder(romPath.value.text, ROM_ROOT)
    && match NormalPath(romPath.value.text, PATH_SIZE)
       case Err(_) => false
       case Ok(path) => gameId.value.text == IdOf(systemId.value.text, path)
  }

  ghost predicate ValidLaunch(members: seq<Member>) {
    var launcher, emulator, core := Field(members, LAUNCHER), Field(members, EMULATOR_TYPE), Field(members, CORE);
    && IsText(launcher) && PathUnder(launcher.value.text, EMU_ROOT) && EndsWith(launcher.value.text, LAUNCH_SH)
    && IsOneOf(emulator, [RETROARCH, STANDALONE])
    && (core == Some(Null) || (IsText(core) && ValidCore(core.value.text)))
    && (emulator.value.text == RETROARCH ==> IsText(core))
  }

  ghost predicate ValidConfigs(members: seq<Member>) {
    var configs := Field(members, APPEND_CONFIGS);
    && configs.Some? && configs.value.Array?
    && forall i | 0 <= i < |configs.value.items| :: ValidConfig(configs.value.items[i])
  }

  ghost predicate ValidRequest(root: Json) {
    && root.Object? && OnlyKeys(root.members, RequestKeys())
    && Field(root.members, SCHEMA) == Some(Number(1.0))
    && ValidGame(root.members) && ValidLaunch(root.members) && ValidConfigs(root.members)
    && IsBool(Field(root.members, AUTO_LOAD_STATE))
    && Field(root.members, REQUESTED_RESOLUTION) == Some(Null)
    && Field(root.members, ENVIRONMENT) == Some(Object([]))
    && var policy := Field(root.members, ACHIEVEMENTS);
    policy.Some? ==>
         ValidPolicy(policy.value) &&
         (Hardcore(root) ==> Field(root.members, AUTO_LOAD_STATE) == Some(False))
  }

  // ----- What the protocol looks at -----

  function Policy(root: Json): Option<Json>
    requires root.Object?
  {
    Field(root.members, ACHIEVEMENTS)
  }

  /** The text of a policy field, if there is one. */
  function PolicyText(root: Json, key: ByteString): Option<ByteString> {
    if root.Object? && Policy(root).Some? && Policy(root).value.Object? &&
       IsText(Field(Policy(root).value.members, key))
    then Some(Field(Policy(root).value.members, key).value.text) else None
  }

  predicate Hardcore(root: Json) {
    PolicyText(root, MODE) == Some(HARDCORE)
  }

  predicate Proxied(root: Json) {
    PolicyText(root, TRANSPORT) == Some(PROXY)
  }

  function Configs(root: Json): seq<Json> {
    if root.Object? then
      match Field(root.members, APPEND_CONFIGS)
      case Some(Array(items)) => items
      case _ => []
    else []
  }

  /** Hardcore means a direct transport and no automatic loading of states. */
  lemma {:induction false} HardcoreIsDirect(root: Json)
    requires ValidRequest(root) && Hardcore(root)
    ensures PolicyText(root, TRANSPORT) == Some(DIRECT) && !Proxied(root)
    ensures Field(root.members, AUTO_LOAD_STATE) == Some(False)
  {
    hide OnlyKeys, ValidGame, ValidLaunch, ValidConfigs, SCHEMA, REQUESTED_RESOLUTION, ENVIRONMENT, AUTO_LOAD_STATE,
      ACHIEVEMENTS;
    hide Field, PolicyKeys, RequestKeys;
    assert |DIRECT| != |PROXY|;
  }

  // ----- The check -----

  method IsPathUnder(text: ByteString, prefix: ByteString) returns (ok: bool)
    ensures ok <==> PathUnder(text, prefix)
  {
    ok := IsSafeText(text);
    ok := ok && prefix <= text;
  }

  method IsValidGame(members: seq<Member>) returns (ok: bool)
    ensures ok <==> ValidGame(members)
  {
    var gameId, systemId, romPath := Field(members, GAME_ID), Field(members, SYSTEM_ID), Field(members, ROM_PATH);
    hide Field, ValidId, SafeText, NormalPath, IdOf;
    if !IsText(gameId) || !ValidId(gameId.value.text) || !IsText(systemId) ||
       !ValidSystem(systemId.value.text) || !IsText(romPath) {
      return false;
    }
    var safe := IsSafeText(systemId.value.text);
    var under := IsPathUnder(romPath.value.text, ROM_ROOT);
    if !safe || !under {
      return false;
    }
    var created := Create(systemId.value.text, romPath.value.text, ID_LENGTH + 1, PATH_SIZE);
    return created.Ok? && created.value.0 == gameId.value.text;
  }

  method IsValidLaunch(members: seq<Member>) returns (ok: bool)
    ensures ok <==> ValidLaunch(members)
  {
    var launcher, emulator, core := Field(members, LAUNCHER), Field(members, EMULATOR_TYPE), Field(members, CORE);
    hide Field, SafeText;
    if !IsText(launcher) || !IsOneOf(emulator, [RETROARCH, STANDALONE]) {
      return false;
    }
    var under := IsPathUnder(launcher.value.text, EMU_ROOT);
    if !under || !EndsWith(launcher.value.text, LAUNCH_SH) {
      return false;
    }
    if IsText(core) {
      ok := IsValidCore(core.value.text);
    } else {
      ok := core == Some(Null) && emulator.value.text != RETROARCH;
    }
  }

  method HasValidConfigs(members: seq<Member>) returns (ok: bool)
    ensures ok <==> ValidConfigs(members)
  {
    var configs := Field(members, APPEND_CONFIGS);
    hide Field, SafeText;
    if configs.None? || !configs.value.Array? {
      return false;
    }
    var items := configs.value.items;
    var config := 0;
    while config < |items|
      invariant 0 <= config <= |items| && forall i | 0 <= i < config :: ValidConfig(items[i])
    {
      if !items[config].String? {
        return false;
      }
      var onCard := IsPathUnder(items[config].text, SD_ROOT);
      var inSession := IsPathUnder(items[config].text, SESSION_ROOT);
      if !onCard && !inSession {
        assert !ValidConfig(items[config]);
        return false;
      }
      config := config + 1;
    }
    return true;
  }

  method IsValidRequest(root: Json) returns (ok: bool)
    ensures ok <==> ValidRequest(root)
  {
    if !root.Object? {
      return false;
    }
    ok := HasOnlyKeys(root.members, RequestKeys());
    if !ok {
      return false;
    }
    var schema, resolution := Field(root.members, SCHEMA), Field(root.members, REQUESTED_RESOLUTION);
    var environment, autoLoad := Field(root.members, ENVIRONMENT), Field(root.members, AUTO_LOAD_STATE);
    var policy := Field(root.members, ACHIEVEMENTS);
    hide Field, RequestKeys, ValidGame, ValidLaunch, ValidConfigs, ValidPolicy, PolicyText, OnlyKeys;
    hide SCHEMA, REQUESTED_RESOLUTION, ENVIRONMENT, AUTO_LOAD_STATE, ACHIEVEMENTS, Hardcore;
    if schema != Some(Number(1.0)) || resolution != Some(Null) || environment != Some(Object([])) || !IsBool(autoLoad) {
      return false;
    }
    ok := IsValidGame(root.members);
    if !ok {
      return false;
    }
    ok := IsValidLaunch(root.members);
    if !ok {
      return false;
    }
    ok := HasValidConfigs(root.members);
    if !ok || policy.None? {
      return;
    }
    ok := IsValidPolicy(policy.value);
    return ok && (Hardcore(root) ==> autoLoad == Some(False));
  }

  // ----- Changing fields -----

  function Place(members: seq<Member>, key: ByteString): Option<nat> {
    JsonCompare.Find(members, key, true, 0)
  }

  function WithField(members: seq<Member>, key: ByteString, value: Json): seq<Member> {
    var at := Place(members, key);
    if at.Some? then members[at.value := Member(key, value)] else members
  }

  function WithoutField(members: seq<Member>, key: ByteString): seq<Member> {
    var at := Place(members, key);
    if at.Some? then members[..at.value] + members[at.value + 1..] else members
  }

  function WithCore(root: Json, core: ByteString): Json
    requires root.Object?
  {
    Object(WithField(root.members, CORE, String(core)))
  }

  function WithConfig(root: Json, path: ByteString): Json
    requires root.Object?
  {
    Object(WithField(root.members, APPEND_CONFIGS, Array(Configs(root) + [String(path)])))
  }

  /** The policy goes to the end of the request. */
  function WithPolicy(root: Json, policy: Json): Json
    requires root.Object?
  {
    Object(WithoutField(root.members, ACHIEVEMENTS) + [Member(ACHIEVEMENTS, policy)])
  }

  ghost predicate UniqueKeys(members: seq<Member>) {
    forall i, j | 0 <= i < j < |members| :: members[i].key != members[j].key
  }

  /** A field is the value of the one member with its key. */
  lemma {:induction false} FieldAt(members: seq<Member>, i: nat)
    requires UniqueKeys(members) && i < |members|
    ensures Place(members, members[i].key) == Some(i) && Field(members, members[i].key) == Some(members[i].value)
  {
  }

  lemma {:induction false} FieldAbsent(members: seq<Member>, key: ByteString)
    requires forall i | 0 <= i < |members| :: members[i].key != key
    ensures Place(members, key) == None && Field(members, key) == None
  {
  }

  /** Replacing one field leaves the others alone. */
  lemma {:induction false} FieldReplaced(members: seq<Member>, key: ByteString, value: Json, other: ByteString)
    requires UniqueKeys(members) && Field(members, key).Some?
    ensures UniqueKeys(WithField(members, key, value))
    ensures Field(WithField(members, key, value), other) == if other == key then Some(value) else Field(members, other)
  {
    var after := WithField(members, key, value);
    var at := Place(members, key).value;
    assert members[at].key == key && forall i | 0 <= i < |members| :: after[i].key == members[i].key;
    SameLookup(members, after, at, other);
  }

  lemma {:induction false} SameLookup(members: seq<Member>, after: seq<Member>, at: nat, other: ByteString)
    requires UniqueKeys(members) && |after| == |members| && at < |members|
    requires forall i | 0 <= i < |members| :: after[i].key == members[i].key && (i != at ==> after[i] == members[i])
    ensures UniqueKeys(after)
    ensures Field(after, other) == if other == members[at].key then Some(after[at].value) else Field(members, other)
  {
    if exists i :: 0 <= i < |members| && members[i].key == other {
      var i :| 0 <= i < |members| && members[i].key == other;
      assert UniqueKeys(after);
      FieldAt(members, i);
      FieldAt(after, i);
    } else {
      FieldAbsent(members, other);
      FieldAbsent(after, other);
    }
  }

  /** Taking one field to the end leaves the others alone. */
  lemma {:induction false} FieldMoved(members: seq<Member>, key: ByteString, value: Json, other: ByteString)
    requires UniqueKeys(members)
    ensures var after := WithoutField(members, key) + [Member(key, value)];
            UniqueKeys(after) && Field(after, other) == if other == key then Some(value) else Field(members, other)
  {
    hide *;
    var after := WithoutField(members, key) + [Member(key, value)];
    var at := MovedForm(members, key, value);
    if other == key {
      FieldAt(after, |after| - 1);
    } else if exists i :: 0 <= i < |members| && members[i].key == other {
      var i :| 0 <= i < |members| && members[i].key == other;
      var j := if i > at then i - 1 else i;
      FieldAt(members, i);
      FieldAt(after, j);
    } else {
      FieldAbsent(members, other);
      FieldAbsent(after, other);
    }
  }

  /** Where the members come to lie; `at` is the place that is given up. */
  lemma {:induction false} MovedForm(members: seq<Member>, key: ByteString, value: Json) returns (at: nat)
    requires UniqueKeys(members)
    ensures var after := WithoutField(members, key) + [Member(key, value)];
            && UniqueKeys(after) && after != [] && after[|after| - 1] == Member(key, value) && at <= |members|
            && |after| == (if at < |members| then |members| else |members| + 1)
            && (forall i | 0 <= i < |members| :: members[i].key == key <==> i == at)
            && (forall i | 0 <= i < |members| && i != at :: after[if i > at then i - 1 else i] == members[i])
            && (forall j | 0 <= j < |after| - 1 :: after[j] == members[if j >= at then j + 1 else j])
  {
    at := FoundOnce(members, key);
    assert WithoutField(members, key) == if at < |members| then members[..at] + members[at + 1..] else members;
    hide *;
    MovedMembers(members, at, Member(key, value));
    MovedUnique(members, WithoutField(members, key) + [Member(key, value)], at, key);
  }

  lemma {:induction false} FoundOnce(members: seq<Member>, key: ByteString) returns (at: nat)
    requires UniqueKeys(members)
    ensures at <= |members| && forall i | 0 <= i < |members| :: members[i].key == key <==> i == at
    ensures Place(members, key) == if at < |members| then Some(at) else None
  {
    var place := Place(members, key);
    at := if place.Some? then place.value else |members|;
  }

  lemma {:induction false} MovedMembers(members: seq<Member>, at: nat, last: Member)
    requires at <= |members|
    ensures var after := (if at < |members| then members[..at] + members[at + 1..] else members) + [last];
            && after != [] && after[|after| - 1] == last
            && |after| == (if at < |members| then |members| else |members| + 1)
            && (forall i | 0 <= i < |members| && i != at :: after[if i > at then i - 1 else i] == members[i])
            && (forall j | 0 <= j < |after| - 1 :: after[j] == members[if j >= at then j + 1 else j])
  {
    var rest := if at < |members| then members[..at] + members[at + 1..] else members;
    assert forall j | 0 <= j < |rest| :: (rest + [last])[j] == rest[j];
    RestMembers(members, at, rest);
  }

  lemma {:induction false} RestMembers(members: seq<Member>, at: nat, rest: seq<Member>)
    requires at <= |members| && rest == if at < |members| then members[..at] + members[at + 1..] else members
    ensures |rest| == if at < |members| then |members| - 1 else |members|
    ensures forall i | 0 <= i < |members| && i != at :: rest[if i > at then i - 1 else i] == members[i]
    ensures forall j | 0 <= j < |rest| :: rest[j] == members[if j >= at then j + 1 else j]
  {
    if at < |members| {
      forall i | 0 <= i < |members| && i != at
        ensures rest[if i > at then i - 1 else i] == members[i]
      {
        RestMember(members, at, if i > at then i - 1 else i);
      }
      forall j | 0 <= j < |rest|
        ensures rest[j] == members[if j >= at then j + 1 else j]
      {
        RestMember(members, at, j);
      }
    }
  }

  lemma {:induction false} RestMember(members: seq<Member>, at: nat, j: nat)
    requires at < |members| && j < |members| - 1
    ensures (members[..at] + members[at + 1..])[j] == members[if j >= at then j + 1 else j]
  {
  }

  lemma {:induction false} MovedUnique(members: seq<Member>, after: seq<Member>, at: nat, key: ByteString)
    requires UniqueKeys(members) && at <= |members| &&
             forall i | 0 <= i < |members| :: members[i].key == key <==> i == at
    requires |after| == (if at < |members| then |members| else |members| + 1) && after[|after| - 1].key == key
    requires forall j | 0 <= j < |after| - 1 :: after[j] == members[if j >= at then j + 1 else j]
    ensures UniqueKeys(after)
  {
    forall i, j | 0 <= i < j < |after|
      ensures after[i].key != after[j].key
    {
      var p := if i >= at then i + 1 else i;
      assert members[p].key != key;
      if j < |after| - 1 {
        var q := if j >= at then j + 1 else j;
        assert members[p].key != members[q].key;
      }
    }
  }

  lemma {:induction false} ValidFields(root: Json)
    requires ValidRequest(root)
    ensures root.Object? && OnlyKeys(root.members, RequestKeys()) && UniqueKeys(root.members)
    ensures Field(root.members, CORE).Some? && ValidConfigs(root.members)
    ensures Field(root.members, APPEND_CONFIGS) == Some(Array(Configs(root)))
  {
    hide ValidGame, ValidPolicy, Field, RequestKeys, SafeText;
  }

  /** Appending a config keeps a request valid and changes nothing but the list. */
  lemma {:induction false} WithConfigValid(root: Json, path: ByteString)
    requires ValidRequest(root) && PathUnder(path, SESSION_ROOT)
    ensures ValidRequest(WithConfig(root, path)) && Configs(WithConfig(root, path)) == Configs(root) + [String(path)]
    ensures forall key | key != APPEND_CONFIGS :: Field(WithConfig(root, path).members, key) == Field(root.members, key)
  {
    hide *;
    ValidFields(root);
    var configs := Array(Configs(root) + [String(path)]);
    var longer := WithConfig(root, path);
    WithConfigIs(root, path);
    OnlyKeysReplaced(root.members, APPEND_CONFIGS, configs, RequestKeys());
    forall key
      ensures Field(longer.members, key) == if key == APPEND_CONFIGS then Some(configs) else Field(root.members, key)
    {
      FieldReplaced(root.members, APPEND_CONFIGS, configs, key);
    }
    LongerConfigs(root, longer, path);
    SameRequest(root, longer);
  }

  lemma {:induction false} WithConfigIs(root: Json, path: ByteString)
    requires root.Object?
    ensures WithConfig(root, path) ==
              Object(WithField(root.members, APPEND_CONFIGS, Array(Configs(root) + [String(path)])))
  {
  }

  lemma {:induction false} LongerConfigs(root: Json, other: Json, path: ByteString)
    requires root.Object? && other.Object? && ValidConfigs(root.members) && PathUnder(path, SESSION_ROOT)
    requires Field(other.members, APPEND_CONFIGS) == Some(Array(Configs(root) + [String(path)]))
    ensures ValidConfigs(other.members) && Configs(other) == Configs(root) + [String(path)]
  {
    hide Field, PathUnder;
    assert ValidConfig(String(path));
  }

  lemma {:induction false} DifferentKeys()
    ensures |APPEND_CONFIGS| == 14 && |SCHEMA| == 6 && |GAME_ID| == 7 && |SYSTEM_ID| == 9 && |ROM_PATH| == 8
    ensures |LAUNCHER| == 8 && |EMULATOR_TYPE| == 13 && |CORE| == 4 && |AUTO_LOAD_STATE| == 15
    ensures |REQUESTED_RESOLUTION| == 20 && |ENVIRONMENT| == 11 && |ACHIEVEMENTS| == 12
  {
  }

  lemma {:induction false} OnlyKeysReplaced(members: seq<Member>, key: ByteString, value: Json,
                                            allowed: seq<ByteString>)
    requires OnlyKeys(members, allowed)
    ensures OnlyKeys(WithField(members, key, value), allowed)
  {
  }

  /** A request with the fields of a valid one, its configs aside, is valid if its configs are. */
  lemma {:induction false} SameRequest(root: Json, other: Json)
    requires ValidRequest(root) && other.Object? && OnlyKeys(other.members, RequestKeys()) &&
               ValidConfigs(other.members)
    requires forall key | key != APPEND_CONFIGS :: Field(other.members, key) == Field(root.members, key)
    ensures ValidRequest(other)
  {
    DifferentKeys();
    hide Field, OnlyKeys, RequestKeys, ValidPolicy, IdOf, NormalPath, SafeText, ValidConfigs;
    assert ValidGame(other.members) && ValidLaunch(other.members);
    assert PolicyText(other, MODE) == PolicyText(root, MODE);
  }

  /** Setting the core changes nothing else. */
  lemma {:induction false} WithCoreFields(root: Json, core: ByteString)
    requires ValidRequest(root)
    ensures WithCore(root, core).Object? && Field(WithCore(root, core).members, CORE) == Some(String(core))
    ensures forall key | key != CORE :: Field(WithCore(root, core).members, key) == Field(root.members, key)
    ensures Configs(WithCore(root, core)) == Configs(root)
  {
    hide *;
    ValidFields(root);
    var other := WithCore(root, core);
    assert other == Object(WithField(root.members, CORE, String(core))) by {
      WithCoreIs(root, core);
    }
    forall key
      ensures Field(other.members, key) == if key == CORE then Some(String(core)) else Field(root.members, key)
    {
      FieldReplaced(root.members, CORE, String(core), key);
    }
    DifferentKeys();
    SameConfigs(root, other);
  }

  lemma {:induction false} WithCoreIs(root: Json, core: ByteString)
    requires root.Object?
    ensures WithCore(root, core) == Object(WithField(root.members, CORE, String(core)))
  {
  }

  lemma {:induction false} SameConfigs(root: Json, other: Json)
    requires root.Object? && other.Object? &&
               Field(other.members, APPEND_CONFIGS) == Field(root.members, APPEND_CONFIGS)
    ensures Configs(other) == Configs(root)
  {
    hide Field;
  }

  /** Setting the policy changes nothing else. */
  lemma {:induction false} WithPolicyFields(root: Json, policy: Json)
    requires ValidRequest(root)
    ensures WithPolicy(root, policy).Object? && Field(WithPolicy(root, policy).members, ACHIEVEMENTS) == Some(policy)
    ensures forall key | key != ACHIEVEMENTS :: Field(WithPolicy(root, policy).members, key) == Field(root.members, key)
    ensures Configs(WithPolicy(root, policy)) == Configs(root)
  {
    hide *;
    ValidFields(root);
    var other := WithPolicy(root, policy);
    assert other == Object(WithoutField(root.members, ACHIEVEMENTS) + [Member(ACHIEVEMENTS, policy)]) by {
      WithPolicyIs(root, policy);
    }
    forall key
      ensures Field(other.members, key) == if key == ACHIEVEMENTS then Some(policy) else Field(root.members, key)
    {
      FieldMoved(root.members, ACHIEVEMENTS, policy, key);
    }
    DifferentKeys();
    SameConfigs(root, other);
  }

  lemma {:induction false} WithPolicyIs(root: Json, policy: Json)
    requires root.Object?
    ensures WithPolicy(root, policy) ==
              Object(WithoutField(root.members, ACHIEVEMENTS) + [Member(ACHIEVEMENTS, policy)])
  {
  }

  /** The fields of a request with the same policy say the same. */
  lemma {:induction false} SamePolicy(root: Json, other: Json)
    requires root.Object? && other.Object? && Field(other.members, ACHIEVEMENTS) == Field(root.members, ACHIEVEMENTS)
    ensures Hardcore(other) == Hardcore(root) && Proxied(other) == Proxied(root)
  {
    hide Field;
  }

  lemma RomRootMeans()
    ensures ROM_ROOT == Ascii("/mnt/SDCARD/Roms/")
  {
  }

  // ----- In plain terms: what is valid -----

  /** No text at all, a control character, or a step up in a path makes a text unsafe; nothing else does. */
  lemma SafeTextMeans(text: ByteString)
    ensures SafeText(text) <==>
            && text != [] && (forall i | 0 <= i < |text| :: text[i] >= 0x20 && text[i] != 0x7f)
            && !(exists front: ByteString, back: ByteString :: text == front + Ascii("/../") + back)
            && !(exists front: ByteString :: text == front + Ascii("/.."))
  {
    InsideMeans(text, DOTS_INSIDE);
    EndMeans(text, DOTS_LAST);
    hide Contains, EndsWith;
  }

  lemma InsideMeans(text: ByteString, part: ByteString)
    ensures Contains(text, part) <==> exists front: ByteString, back: ByteString :: text == front + part + back
  {
    if Contains(text, part) {
      var i: nat :| StandsAt(text, part, i);
      assert text == text[..i] + part + text[i + |part|..];
    }
    if exists front: ByteString, back: ByteString :: text == front + part + back {
      var front: ByteString, back: ByteString :| text == front + part + back;
      assert StandsAt(text, part, |front|);
    }
  }

  lemma EndMeans(text: ByteString, suffix: ByteString)
    ensures EndsWith(text, suffix) <==> exists front: ByteString :: text == front + suffix
  {
    if EndsWith(text, suffix) {
      assert text == text[..|text| - |suffix|] + suffix;
    }
  }

  /** A core is a file name of letters, digits, "_", "-" and "." that ends with "_libretro.so". */
  lemma ValidCoreMeans(text: ByteString)
    ensures ValidCore(text) <==>
            && SafeText(text)
            && (exists front: ByteString :: front != [] && text == front + Ascii("_libretro.so"))
            && forall i | 0 <= i < |text| ::
                 var c := text[i] as int as char;
                 'A' <= c <= 'Z' || 'a' <= c <= 'z' || '0' <= c <= '9' || c in {'_', '-', '.'}
  {
    EndMeans(text, CORE_SUFFIX);
    hide SafeText, EndsWith;
  }

  function Word(word: string): Option<Json> {
    Some(String(Ascii(word)))
  }

  ghost predicate IsPositive(value: Option<Json>, n: int) {
    0 < n <= 2147483647 && value == Some(Number(n as real))
  }

  lemma PositiveIntMeans(value: Option<Json>)
    ensures PositiveInt(value) <==> exists n :: IsPositive(value, n)
  {
    if PositiveInt(value) {
      assert IsPositive(value, ToInt(value.value.number));
    }
    if exists n :: IsPositive(value, n) {
      var n :| IsPositive(value, n);
      ToIntWhole(n);
    }
  }

  /** The combinations of an achievement policy that are accepted. */
  lemma PolicyMeans(policy: Json)
    ensures ValidPolicy(policy) <==>
            && policy.Object?
            && (forall i | 0 <= i < |policy.members| ::
                  policy.members[i].key in
                  [Ascii("enabled"), Ascii("mode"), Ascii("transport"), Ascii("ra_game_id"),
                   Ascii("core_certification")])
            && (forall i, j | 0 <= i < j < |policy.members| :: policy.members[i].key != policy.members[j].key)
            && var enabled := Field(policy.members, Ascii("enabled"));
            && var mode, transport := Field(policy.members, Ascii("mode")), Field(policy.members, Ascii("transport"));
            && var game := Field(policy.members, Ascii("ra_game_id"));
            && (enabled == Some(True) || enabled == Some(False))
            && mode in (if enabled == Some(True) then {Word("softcore"), Word("hardcore")} else {Word("disabled")})
            && transport in (if mode == Word("hardcore") then {Word("direct")}
                   else {Word("direct"), Word("proxy"), Word("unavailable")})
            && ((enabled == Some(False) && game == Some(Null)) || exists n :: IsPositive(game, n))
            && Field(policy.members, Ascii("core_certification")) in
               {Word("verified"), Word("best_effort"), Word("incompatible"), Word("untested"), Word("not_applicable")}
  {
    hide Field, PositiveInt, IsPositive;
    if policy.Object? {
      PositiveIntMeans(Field(policy.members, RA_GAME_ID));
      ModesMean(Field(policy.members, MODE), Field(policy.members, TRANSPORT));
      CertificationsMean(Field(policy.members, CORE_CERTIFICATION));
      ModeLengths();
    }
    hide IsOneOf, Word;
  }

  lemma ModeLengths()
    ensures Word("hardcore") != Word("disabled") && Word("softcore") != Word("disabled")
    ensures HARDCORE != DISABLED && SOFTCORE != DISABLED && HARDCORE != SOFTCORE
  {
    assert HARDCORE[0] != DISABLED[0] && SOFTCORE[0] != DISABLED[0] && HARDCORE[0] != SOFTCORE[0];
  }

  lemma ModesMean(mode: Option<Json>, transport: Option<Json>)
    ensures IsOneOf(mode, [DISABLED, SOFTCORE, HARDCORE]) <==>
            mode in {Word("disabled"), Word("softcore"), Word("hardcore")}
    ensures IsOneOf(transport, [DIRECT, PROXY, UNAVAILABLE]) <==>
            transport in {Word("direct"), Word("proxy"), Word("unavailable")}
  {
  }

  lemma CertificationsMean(value: Option<Json>)
    ensures IsOneOf(value, [VERIFIED, BEST_EFFORT, INCOMPATIBLE, UNTESTED, NOT_APPLICABLE]) <==>
            value in
            {Word("verified"), Word("best_effort"), Word("incompatible"), Word("untested"), Word("not_applicable")}
  {
  }

  predicate IsString(value: Option<Json>) {
    value.Some? && value.value.String?
  }

  /** What a request has to say to be accepted. */
  lemma RequestMeans(root: Json)
    ensures ValidRequest(root) <==>
            && root.Object?
            && (forall i | 0 <= i < |root.members| ::
                  root.members[i].key in
                  [Ascii("schema"), Ascii("game_id"), Ascii("system_id"), Ascii("rom_path"), Ascii("launcher"),
                   Ascii("emulator_type"), Ascii("core"), Ascii("auto_load_state"), Ascii("append_configs"),
                   Ascii("requested_resolution"), Ascii("environment"), Ascii("achievements")])
            && (forall i, j | 0 <= i < j < |root.members| :: root.members[i].key != root.members[j].key)
            && GameSaid(root.members) && LaunchSaid(root.members) && ConfigsSaid(root.members)
            && Field(root.members, Ascii("schema")) == Some(Number(1.0))
            && Field(root.members, Ascii("requested_resolution")) == Some(Null)
            && Field(root.members, Ascii("environment")) == Some(Object([]))
            && var autoLoad := Field(root.members, Ascii("auto_load_state"));
            && (autoLoad == Some(True) || autoLoad == Some(False))
            && var policy := Field(root.members, Ascii("achievements"));
            && (policy.Some? ==>
                  ValidPolicy(policy.value) &&
                  (Field(policy.value.members, Ascii("mode")) == Word("hardcore") ==> autoLoad == Some(False)))
  {
    hide Field, ValidGame, ValidLaunch, ValidConfigs, ValidPolicy, GameSaid, LaunchSaid, ConfigsSaid;
    if root.Object? {
      GameSaidMeans(root.members);
      LaunchSaidMeans(root.members);
      ConfigsSaidMeans(root.members);
      var policy := Field(root.members, ACHIEVEMENTS);
      if policy.Some? && ValidPolicy(policy.value) {
        PolicyIsObject(policy.value);
      }
    }
  }

  lemma PolicyIsObject(policy: Json)
    requires ValidPolicy(policy)
    ensures policy.Object?
  {
  }

  /** The identifier is that of the system and the path, which is one below the ROM root. */
  ghost predicate GameSaid(members: seq<Member>) {
    && var game, system := Field(members, Ascii("game_id")), Field(members, Ascii("system_id"));
    && var rom := Field(members, Ascii("rom_path"));
    && IsString(game) && IsString(system) && IsString(rom)
    && SafeText(system.value.text) && ValidSystem(system.value.text)
    && SafeText(rom.value.text) && Ascii("/mnt/SDCARD/Roms/") <= rom.value.text
    && NormalPath(rom.value.text, 4096).Ok?
    && game.value.text == IdOf(system.value.text, NormalPath(rom.value.text, 4096).value)
  }

  ghost predicate LaunchSaid(members: seq<Member>) {
    && var launcher, core := Field(members, Ascii("launcher")), Field(members, Ascii("core"));
    && var emulator := Field(members, Ascii("emulator_type"));
    && IsString(launcher) && SafeText(launcher.value.text) && Ascii("/mnt/SDCARD/Emu/") <= launcher.value.text
    && (exists front: ByteString :: launcher.value.text == front + Ascii("/launch.sh"))
    && ((emulator == Word("standalone") && core == Some(Null)) ||
        (emulator in {Word("standalone"), Word("retroarch")} && IsString(core) && ValidCore(core.value.text)))
  }

  ghost predicate ConfigsSaid(members: seq<Member>) {
    && var configs := Field(members, Ascii("append_configs"));
    && configs.Some? && configs.value.Array?
    && forall i | 0 <= i < |configs.value.items| ::
         && configs.value.items[i].String? && SafeText(configs.value.items[i].text)
         && (Ascii("/mnt/SDCARD/") <= configs.value.items[i].text ||
             Ascii("/tmp/bloom-session/") <= configs.value.items[i].text)
  }

  lemma GameSaidMeans(members: seq<Member>)
    ensures GameSaid(members) <==> ValidGame(members)
  {
    hide Field, SafeText, ValidSystem, NormalPath, IdOf, ValidId, ROM_ROOT, GAME_ID, SYSTEM_ID, ROM_PATH;
    GameKeys();
    RomRootMeans();
    var system, rom := Field(members, SYSTEM_ID), Field(members, ROM_PATH);
    if IsString(system) && IsString(rom) && NormalPath(rom.value.text, 4096).Ok? {
      CreatedIdIsValid(system.value.text, NormalPath(rom.value.text, 4096).value);
    }
  }

  lemma GameKeys()
    ensures GAME_ID == Ascii("game_id") && SYSTEM_ID == Ascii("system_id") && ROM_PATH == Ascii("rom_path")
  {
  }

  lemma LaunchSaidMeans(members: seq<Member>)
    ensures LaunchSaid(members) <==> ValidLaunch(members)
  {
    hide Field, SafeText, ValidCore, EndsWith;
    var launcher := Field(members, LAUNCHER);
    if IsString(launcher) {
      EndMeans(launcher.value.text, LAUNCH_SH);
    }
    assert RETROARCH != STANDALONE by { assert RETROARCH[0] != STANDALONE[0]; }
  }

  lemma ConfigsSaidMeans(members: seq<Member>)
    ensures ConfigsSaid(members) <==> ValidConfigs(members)
  {
    hide Field, SafeText;
  }

  // ----- In plain terms: changes that keep a request valid -----

  /** A request stays valid with any valid core. */
  lemma WithCoreValid(root: Json, core: ByteString)
    requires ValidRequest(root)
    ensures ValidRequest(WithCore(root, core)) <==> ValidCore(core)
  {
    var other := WithCore(root, core);
    WithCoreFields(root, core);
    ValidFields(root);
    OnlyKeysReplaced(root.members, CORE, String(core), RequestKeys());
    DifferentKeys();
    LaunchWithCore(root, other, core);
    hide Field, OnlyKeys, RequestKeys, ValidPolicy, ValidGame, ValidLaunch, ValidCore, WithCore, Hardcore, ValidConfigs;
    SameGame(root, other);
    SamePolicy(root, other);
  }

  lemma LaunchWithCore(root: Json, other: Json, core: ByteString)
    requires root.Object? && other.Object? && ValidLaunch(root.members)
    requires Field(other.members, LAUNCHER) == Field(root.members, LAUNCHER)
    requires Field(other.members, EMULATOR_TYPE) == Field(root.members, EMULATOR_TYPE)
    requires Field(other.members, CORE) == Some(String(core))
    ensures ValidLaunch(other.members) <==> ValidCore(core)
  {
    hide Field, ValidCore, SafeText, EndsWith;
  }

  lemma SameGame(root: Json, other: Json)
    requires root.Object? && other.Object?
    requires Field(other.members, GAME_ID) == Field(root.members, GAME_ID)
    requires Field(other.members, SYSTEM_ID) == Field(root.members, SYSTEM_ID)
    requires Field(other.members, ROM_PATH) == Field(root.members, ROM_PATH)
    requires Field(other.members, APPEND_CONFIGS) == Field(root.members, APPEND_CONFIGS)
    ensures ValidGame(other.members) == ValidGame(root.members)
    ensures ValidConfigs(other.members) == ValidConfigs(root.members)
  {
    hide Field, SafeText, NormalPath, IdOf, ValidId, ValidSystem;
  }

  // ----- In plain terms: what the policy of a request says -----

  /** This policy of the request has this text in this field. */
  ghost predicate Says(root: Json, policy: Json, key: string, word: string) {
    && root.Object? && Member(Ascii("achievements"), policy) in root.members
    && policy.Object? && Member(Ascii(key), String(Ascii(word))) in policy.members
  }

  ghost predicate PolicySays(root: Json, key: string, word: string) {
    exists policy :: Says(root, policy, key, word)
  }

  ghost predicate PolicyEnabled(root: Json) {
    exists policy ::
      && root.Object? && Member(Ascii("achievements"), policy) in root.members
      && policy.Object? && Member(Ascii("enabled"), True) in policy.members
  }

  lemma PolicyEnabledMeans(root: Json)
    requires ValidRequest(root)
    ensures root.Object?
    ensures PolicyEnabled(root) <==>
            Policy(root).Some? && Policy(root).value.Object? &&
            Field(Policy(root).value.members, ENABLED) == Some(True)
  {
    hide ValidGame, ValidLaunch, ValidConfigs, PolicyFields, Hardcore, Field, RequestKeys, PolicyKeys;
    if Policy(root).Some? && Policy(root).value.Object? && Field(Policy(root).value.members, ENABLED) == Some(True) {
      FieldMember(root.members, ACHIEVEMENTS);
      FieldMember(Policy(root).value.members, ENABLED);
    }
    if PolicyEnabled(root) {
      var policy :|
        && Member(ACHIEVEMENTS, policy) in root.members && policy.Object? && Member(ENABLED, True) in policy.members;
      MemberField(root.members, Member(ACHIEVEMENTS, policy));
      MemberField(policy.members, Member(ENABLED, True));
    }
  }

  lemma PolicySaysMeans(root: Json)
    requires ValidRequest(root)
    ensures Hardcore(root) <==> PolicySays(root, "mode", "hardcore")
    ensures Proxied(root) <==> PolicySays(root, "transport", "proxy")
  {
    hide *;
    FieldSays(root, "mode", "hardcore");
    FieldSays(root, "transport", "proxy");
    HardcoreIs(root);
  }

  lemma HardcoreIs(root: Json)
    ensures Hardcore(root) <==> PolicyText(root, Ascii("mode")) == Some(Ascii("hardcore"))
    ensures Proxied(root) <==> PolicyText(root, Ascii("transport")) == Some(Ascii("proxy"))
  {
    hide PolicyText;
  }

  lemma FieldSays(root: Json, key: string, word: string)
    requires ValidRequest(root)
    ensures PolicyText(root, Ascii(key)) == Some(Ascii(word)) <==> PolicySays(root, key, word)
  {
    hide ValidGame, ValidLaunch, ValidConfigs, PolicyFields, Hardcore, Field, RequestKeys, PolicyKeys;
    if PolicyText(root, Ascii(key)) == Some(Ascii(word)) {
      var policy := Policy(root).value;
      FieldMember(root.members, ACHIEVEMENTS);
      FieldMember(policy.members, Ascii(key));
      assert Says(root, policy, key, word);
    }
    if PolicySays(root, key, word) {
      var policy :| Says(root, policy, key, word);
      MemberField(root.members, Member(ACHIEVEMENTS, policy));
      MemberField(policy.members, Member(Ascii(key), String(Ascii(word))));
    }
  }

  lemma FieldMember(members: seq<Member>, key: ByteString)
    requires UniqueKeys(members) && Field(members, key).Some?
    ensures Member(key, Field(members, key).value) in members
  {
  }

  lemma MemberField(members: seq<Member>, member: Member)
    requires UniqueKeys(members) && member in members
    ensures Field(members, member.key) == Some(member.value)
  {
    var i :| 0 <= i < |members| && members[i] == member;
    FieldAt(members, i);
  }
}
