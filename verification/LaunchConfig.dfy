/** The achievement config appended to a launch. */
module LaunchConfig {
  import opened Bytes
  import opened Wrappers
  import opened JsonText
  import opened LaunchRequest

  const MAX_CONFIG: nat := 1024
  const QUOTE_BYTE: Byte := 0x22

  datatype Setting = Setting(name: ByteString, value: ByteString)

  function Set(name: string, value: ByteString): Setting {
    Setting(Ascii(name), value)
  }

  /** A line for each setting. */
  function Written(settings: seq<Setting>): ByteString {
    if settings == [] then [] else LineOf(settings[0]) + Written(settings[1..])
  }

  function LineOf(setting: Setting): ByteString {
    setting.name + Ascii(" = \"") + setting.value + [QUOTE_BYTE, NEWLINE]
  }

  function CommonSettings(username: ByteString, token: ByteString, hardcore: bool): seq<Setting> {
    [Set("cheevos_enable", Ascii("true")), Set("cheevos_username", username), Set("cheevos_token", token),
     Set("cheevos_hardcore_mode_enable", if hardcore then Ascii("true") else Ascii("false")),
     Set("cheevos_richpresence_enable", Ascii("true")), Set("cheevos_leaderboards_enable", Ascii("true"))]
  }

  function HardcoreSettings(): seq<Setting> {
    [Set("savestate_auto_load", Ascii("false")), Set("rewind_enable", Ascii("false")),
     Set("run_ahead_enabled", Ascii("false")), Set("preemptive_frames", Ascii("0")),
     Set("input_load_state", Ascii("nul")), Set("input_rewind", Ascii("nul")),
     Set("input_frame_advance", Ascii("nul")), Set("input_slowmotion", Ascii("nul")),
     Set("input_cheat_index_plus", Ascii("nul")), Set("input_cheat_index_minus", Ascii("nul")),
     Set("input_cheat_toggle", Ascii("nul"))]
  }

  function HostSettings(host: Option<ByteString>): seq<Setting> {
    match host
    case None => []
    case Some(name) => [Set("cheevos_custom_host", name)]
  }

  /** The whole config. */
  function ConfigText(username: ByteString, token: ByteString, hardcore: bool, host: Option<ByteString>): ByteString {
    Written(CommonSettings(username, token, hardcore) + (if hardcore then HardcoreSettings() else []) +
            HostSettings(host))
  }

  predicate ConfigByte(b: Byte) {
    0x21 <= b <= 0x7e && b != 0x22 && b != 0x5c
  }

  predicate SafeConfigValue(value: ByteString) {
    value != [] && forall i | 0 <= i < |value| :: ConfigByte(value[i])
  }

  /** A config for the policy of this request. */
  ghost predicate ConfigFor(bytes: ByteString, root: Json) {
    exists username, token, host ::
      && SafeConfigValue(username) && SafeConfigValue(token)
      && bytes == ConfigText(username, token, Hardcore(root), host)
      && (host.Some? <==> Proxied(root)) && (host.Some? ==> SafeConfigValue(host.value))
  }

  /** Printable characters without blanks, quotes and backslashes can be written into a config. */
  lemma SafeConfigMeans(value: ByteString)
    ensures SafeConfigValue(value) <==>
            value != [] && forall i | 0 <= i < |value| ::
              '!' <= value[i] as int as char <= '~' && value[i] as int as char !in {'"', '\\'}
  {
  }

  // ----- Reading a config -----

  /** The place of the first such byte, or the length. */
  function IndexOf(text: ByteString, b: Byte): (at: nat)
    ensures at <= |text| && b !in text[..at] && (at < |text| ==> text[at] == b)
  {
    if text == [] || text[0] == b then 0
    else
      var rest := IndexOf(text[1..], b);
      assert text[..rest + 1] == [text[0]] + text[1..][..rest];
      rest + 1
  }

  /** A line of the form: a name, " = ", and a value in quotes. */
  function SettingOf(line: ByteString): Option<Setting> {
    var quote := IndexOf(line, 0x22);
    if 3 <= quote < |line| - 1 && line[quote - 3..quote] == [0x20, 0x3d, 0x20] && line[|line| - 1] == 0x22
    then Some(Setting(line[..quote - 3], line[quote + 1..|line| - 1])) else None
  }

  /** What the lines of a text set, in order. */
  function Settings(text: ByteString): seq<Setting>
    decreases |text|
  {
    if text == [] then []
    else
      var end := IndexOf(text, 0x0a);
      var rest := Settings(if end < |text| then text[end + 1..] else []);
      match SettingOf(text[..end])
      case None => rest
      case Some(setting) => [setting] + rest
  }

  /** Neither quotes nor line ends. */
  predicate PlainBytes(bytes: ByteString) {
    forall i | 0 <= i < |bytes| :: bytes[i] != 0x22 && bytes[i] != 0x0a
  }

  predicate PlainSetting(setting: Setting) {
    PlainBytes(setting.name) && PlainBytes(setting.value)
  }

  lemma {:induction false} FirstIndex(text: ByteString, b: Byte, at: nat)
    requires at < |text| && text[at] == b && forall i | 0 <= i < at :: text[i] != b
    ensures IndexOf(text, b) == at
  {
    if at > 0 {
      FirstIndex(text[1..], b, at - 1);
    }
  }

  lemma SettingRead(setting: Setting)
    requires PlainSetting(setting)
    ensures SettingOf(setting.name + [0x20, 0x3d, 0x20, 0x22] + setting.value + [0x22]) == Some(setting)
  {
    var n, signs: ByteString := |setting.name|, [0x20, 0x3d, 0x20, 0x22];
    var line := setting.name + signs + setting.value + [0x22];
    assert line[n..n + 4] == signs;
    forall i | 0 <= i < n + 3
      ensures line[i] != 0x22
    {
      if i >= n {
        assert line[i] == signs[i - n];
      }
    }
    FirstIndex(line, 0x22, n + 3);
    assert line[..n] == setting.name && line[n + 4..|line| - 1] == setting.value;
    assert line[n..n + 3] == signs[..3] == [0x20, 0x3d, 0x20];
  }

  lemma LineRead(setting: Setting)
    requires PlainSetting(setting)
    ensures var line := LineOf(setting);
            && line == line[..|line| - 1] + [0x0a] && (forall i | 0 <= i < |line| - 1 :: line[i] != 0x0a)
            && SettingOf(line[..|line| - 1]) == Some(setting)
  {
    SettingRead(setting);
    hide SettingOf;
    var line, shown := LineOf(setting), setting.name + [0x20, 0x3d, 0x20, 0x22] + setting.value + [0x22];
    assert Ascii(" = \"") == [0x20, 0x3d, 0x20, 0x22];
    assert line == shown + [0x0a];
    assert line[..|line| - 1] == shown;
  }

  /** What was written is read back. */
  lemma {:induction false} WrittenRead(settings: seq<Setting>)
    requires forall i | 0 <= i < |settings| :: PlainSetting(settings[i])
    ensures Settings(Written(settings)) == settings
  {
    if settings != [] {
      hide LineOf, PlainSetting, SettingOf, IndexOf, Settings;
      var line, rest := LineOf(settings[0]), Written(settings[1..]);
      LineRead(settings[0]);
      WrittenRead(settings[1..]);
      FirstLine(line[..|line| - 1], rest);
    } else {
      assert Settings([]) == [];
    }
  }

  /** The first line of a text is read, then the others. */
  lemma FirstLine(line: ByteString, rest: ByteString)
    requires forall i | 0 <= i < |line| :: line[i] != 0x0a
    ensures var setting := SettingOf(line);
            Settings(line + [0x0a] + rest) ==
            if setting.Some? then [setting.value] + Settings(rest) else Settings(rest)
  {
    hide SettingOf, IndexOf;
    var text := line + [0x0a] + rest;
    FirstIndex(text, 0x0a, |line|);
    assert text[..|line|] == line && text[|line| + 1..] == rest;
  }

  // ----- What a config sets -----

  predicate PlainName(name: string) {
    forall i | 0 <= i < |name| :: '_' <= name[i] <= 'z'
  }

  lemma PlainSet(name: string, value: ByteString)
    requires PlainName(name) && PlainBytes(value)
    ensures PlainSetting(Set(name, value))
  {
  }

  lemma SafeIsPlain(value: ByteString)
    requires SafeConfigValue(value)
    ensures PlainBytes(value)
  {
  }

  lemma PlainWords()
    ensures PlainBytes(Ascii("true")) && PlainBytes(Ascii("false")) && PlainBytes(Ascii("nul")) &&
              PlainBytes(Ascii("0"))
  {
  }

  lemma CommonPlain(username: ByteString, token: ByteString, hardcore: bool)
    requires SafeConfigValue(username) && SafeConfigValue(token)
    ensures var settings := CommonSettings(username, token, hardcore);
            forall i | 0 <= i < |settings| :: PlainSetting(settings[i])
  {
    CommonNames();
    SafeIsPlain(username);
    SafeIsPlain(token);
    PlainWords();
    hide PlainName, PlainBytes, PlainSetting, Set, SafeConfigValue;
    PlainSet("cheevos_enable", Ascii("true"));
    PlainSet("cheevos_username", username);
    PlainSet("cheevos_token", token);
    PlainSet("cheevos_hardcore_mode_enable", if hardcore then Ascii("true") else Ascii("false"));
    PlainSet("cheevos_richpresence_enable", Ascii("true"));
    PlainSet("cheevos_leaderboards_enable", Ascii("true"));
  }

  lemma CommonNames()
    ensures PlainName("cheevos_enable") && PlainName("cheevos_username") && PlainName("cheevos_token")
    ensures PlainName("cheevos_hardcore_mode_enable") && PlainName("cheevos_richpresence_enable")
    ensures PlainName("cheevos_leaderboards_enable") && PlainName("cheevos_custom_host")
  {
    UserNames();
    ModeNames();
    hide PlainName;
  }

  lemma UserNames()
    ensures PlainName("cheevos_enable") && PlainName("cheevos_username") && PlainName("cheevos_token")
    ensures PlainName("cheevos_custom_host")
  {
  }

  lemma ModeNames()
    ensures PlainName("cheevos_hardcore_mode_enable") && PlainName("cheevos_richpresence_enable")
    ensures PlainName("cheevos_leaderboards_enable")
  {
  }

  lemma HardcorePlain()
    ensures forall i | 0 <= i < |HardcoreSettings()| :: PlainSetting(HardcoreSettings()[i])
  {
    HardcoreNames();
    PlainWords();
    hide PlainName, PlainBytes, PlainSetting, Set;
    PlainSet("savestate_auto_load", Ascii("false"));
    PlainSet("rewind_enable", Ascii("false"));
    PlainSet("run_ahead_enabled", Ascii("false"));
    PlainSet("preemptive_frames", Ascii("0"));
    PlainSet("input_load_state", Ascii("nul"));
    PlainSet("input_rewind", Ascii("nul"));
    PlainSet("input_frame_advance", Ascii("nul"));
    PlainSet("input_slowmotion", Ascii("nul"));
    PlainSet("input_cheat_index_plus", Ascii("nul"));
    PlainSet("input_cheat_index_minus", Ascii("nul"));
    PlainSet("input_cheat_toggle", Ascii("nul"));
  }

  lemma HardcoreNames()
    ensures PlainName("savestate_auto_load") && PlainName("rewind_enable") && PlainName("run_ahead_enabled")
    ensures PlainName("preemptive_frames") && PlainName("input_load_state") && PlainName("input_rewind")
    ensures PlainName("input_frame_advance") && PlainName("input_slowmotion")
    ensures PlainName("input_cheat_index_plus") && PlainName("input_cheat_index_minus")
    ensures PlainName("input_cheat_toggle")
  {
    RewindNames();
    InputNames();
    CheatNames();
    hide PlainName;
  }

  lemma RewindNames()
    ensures PlainName("savestate_auto_load") && PlainName("rewind_enable") && PlainName("run_ahead_enabled")
    ensures PlainName("preemptive_frames")
  {
  }

  lemma InputNames()
    ensures PlainName("input_load_state") && PlainName("input_rewind") && PlainName("input_frame_advance")
    ensures PlainName("input_slowmotion")
  {
  }

  lemma CheatNames()
    ensures PlainName("input_cheat_index_plus") && PlainName("input_cheat_index_minus")
    ensures PlainName("input_cheat_toggle")
  {
  }

  /** Line by line a config sets exactly this, the restrictions in hardcore mode only and the host if there is one. */
  lemma ConfigSettings(username: ByteString, token: ByteString, hardcore: bool, host: Option<ByteString>)
    requires SafeConfigValue(username) && SafeConfigValue(token) && (host.Some? ==> SafeConfigValue(host.value))
    ensures Settings(ConfigText(username, token, hardcore, host)) ==
            [Setting(Ascii("cheevos_enable"), Ascii("true")), Setting(Ascii("cheevos_username"), username),
             Setting(Ascii("cheevos_token"), token),
             Setting(Ascii("cheevos_hardcore_mode_enable"), Ascii(if hardcore then "true" else "false")),
             Setting(Ascii("cheevos_richpresence_enable"), Ascii("true")),
             Setting(Ascii("cheevos_leaderboards_enable"), Ascii("true"))] +
            (if hardcore then
               [Setting(Ascii("savestate_auto_load"), Ascii("false")), Setting(Ascii("rewind_enable"), Ascii("false")),
                Setting(Ascii("run_ahead_enabled"), Ascii("false")), Setting(Ascii("preemptive_frames"), Ascii("0")),
                Setting(Ascii("input_load_state"), Ascii("nul")), Setting(Ascii("input_rewind"), Ascii("nul")),
                Setting(Ascii("input_frame_advance"), Ascii("nul")), Setting(Ascii("input_slowmotion"), Ascii("nul")),
                Setting(Ascii("input_cheat_index_plus"), Ascii("nul")),
                Setting(Ascii("input_cheat_index_minus"), Ascii("nul")),
                Setting(Ascii("input_cheat_toggle"), Ascii("nul"))]
             else []) +
            (if host.Some? then [Setting(Ascii("cheevos_custom_host"), host.value)] else [])
  {
    CommonPlain(username, token, hardcore);
    HardcorePlain();
    CommonNames();
    if host.Some? {
      SafeIsPlain(host.value);
      PlainSet("cheevos_custom_host", host.value);
    }
    hide PlainName, PlainBytes, PlainSetting, SafeConfigValue, Settings, Written;
    WrittenRead(CommonSettings(username, token, hardcore) + (if hardcore then HardcoreSettings() else []) +
                HostSettings(host));
  }

  /** The text of a config tells its user, its mode and its host. */
  lemma {:induction false} ConfigDetermines(username: ByteString, token: ByteString, hardcore: bool,
                                            host: Option<ByteString>,
                                            username': ByteString, token': ByteString, hardcore': bool,
                                            host': Option<ByteString>)
    requires SafeConfigValue(username) && SafeConfigValue(token) && (host.Some? ==> SafeConfigValue(host.value))
    requires SafeConfigValue(username') && SafeConfigValue(token') && (host'.Some? ==> SafeConfigValue(host'.value))
    requires ConfigText(username, token, hardcore, host) == ConfigText(username', token', hardcore', host')
    ensures username == username' && token == token' && hardcore == hardcore' && host == host'
  {
    hide SafeConfigValue, ConfigText, Settings;
    ConfigSettings(username, token, hardcore, host);
    ConfigSettings(username', token', hardcore', host');
    var read := Settings(ConfigText(username, token, hardcore, host));
    assert read[1].value == username == username' && read[2].value == token == token';
    assert |Ascii("true")| == 4 && |Ascii("false")| == 5;
    assert |read[3].value| == if hardcore then 4 else 5;
    assert |read| == (if hardcore then 17 else 6) + if host.Some? then 1 else 0;
    assert host.Some? ==> read[|read| - 1].value == host.value;
  }
}
