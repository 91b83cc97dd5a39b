/**
 The commands on one request file and the files they leave, crashes included. Every file is replaced
 by writing a temporary file, syncing it, renaming it and syncing the directory.
 */
module LaunchProtocol {
  import opened Bytes
  import opened Wrappers
  import opened JsonText
  import opened Memory
  import GameId
  import opened LaunchRequest
  import opened LaunchText
  import opened LaunchConfig

  type Path = ByteString

  /** Unsynced: renamed, but syncing the directory failed. Crashed: the power went in the middle. */
  datatype Outcome = Written | Refused | Failed | Unsynced | Crashed

  /** The bytes of a valid request. */
  ghost predicate Holds(bytes: ByteString, root: Json) {
    ValidRequest(root) && bytes == Text(root)
  }

  lemma {:induction false} HoldsText(root: Json)
    requires ValidRequest(root)
    ensures Holds(Text(root), root)
  {
    hide ValidRequest, Text;
  }

  /** A file, whatever path it is reached by: the directories from the root, then the name. */
  type File = seq<ByteString>

  function FileOf(path: Path): File {
    Walked(GameId.Split(path), [])
  }

  /** Empty segments and "." stay where they are, ".." goes up. */
  function Walked(segments: seq<ByteString>, at: File): File {
    if segments == [] then at
    else if GameId.Dropped(segments[0]) then Walked(segments[1..], at)
    else if segments[0] == GameId.DOT_DOT then Walked(segments[1..], if at == [] then [] else at[..|at| - 1])
    else Walked(segments[1..], at + [segments[0]])
  }

  /** One of the configs of the request is this file. */
  ghost predicate Names(root: Json, file: File) {
    exists path :: String(path) in Configs(root) && FileOf(path) == file
  }

  /** The two requests want the same config. */
  predicate SameMode(a: Json, b: Json) {
    Hardcore(a) == Hardcore(b) && Proxied(a) == Proxied(b)
  }

  /** What is not counted: a text in a file. */
  datatype Pending = Nothing | Put(file: File, text: ByteString)

  /** Once a config has been generated, policy and core are settled for good. */
  predicate Frozen(current: Option<Json>) {
    current.Some? && Configs(current.value) != []
  }

  /** The request with another core. */
  predicate CoreSet(before: Option<Json>, after: Option<ByteString>, core: ByteString) {
    before.Some? && before.value.Object? && after == Some(Text(WithCore(before.value, core)))
  }

  /** The request with another policy. */
  predicate PolicySet(before: Option<Json>, after: Option<ByteString>, policy: Json) {
    before.Some? && before.value.Object? && after == Some(Text(WithPolicy(before.value, policy)))
  }

  /** The request can be read, has no configs yet and stays valid with this policy. */
  ghost predicate MaySet(before: Option<Json>, policy: Json) {
    && before.Some? && before.value.Object? && Configs(before.value) == []
    && ValidRequest(WithPolicy(before.value, policy))
  }

  /** The request can be read, is for a policy that is on, and the texts can be written into a config that fits. */
  ghost predicate MayConfigure(before: Option<Json>, config: Path, username: ByteString, token: ByteString,
                               host: Option<ByteString>) {
    && before.Some? && SafeText(config) && Ascii("/tmp/bloom-session/") <= config
    && PolicyEnabled(before.value) && SafeConfigValue(username) && SafeConfigValue(token)
    && (PolicySays(before.value, "transport", "proxy") ==> host.Some? && SafeConfigValue(host.value))
    && |ConfigText(username, token, PolicySays(before.value, "mode", "hardcore"),
                   if PolicySays(before.value, "transport", "proxy") then host else None)| < 1024
  }

  /** The request with one config more. */
  predicate ConfigAdded(before: Option<Json>, after: Option<ByteString>, config: Path) {
    before.Some? && before.value.Object? && after == Some(Text(WithConfig(before.value, config)))
  }

  /** The config for the policy of a request; the host of the proxy only where the policy wants it. */
  function WantedConfig(root: Option<Json>, username: ByteString, token: ByteString,
                        host: Option<ByteString>): Option<ByteString> {
    match root
    case None => None
    case Some(r) => Some(ConfigText(username, token, Hardcore(r), if Proxied(r) then host else None))
  }

  /** The request as it was, written again. */
  predicate Rewritten(before: Option<Json>, after: Option<ByteString>) {
    before.Some? && after == Some(Text(before.value))
  }

  /** The policy the command line asks for. */
  function ResolvedPolicy(enabled: bool, mode: ByteString, offlineCasual: bool, raGameId: int,
                          certification: ByteString): Json {
    if !enabled then GivenPolicy(false, DISABLED, UNAVAILABLE, 0, NOT_APPLICABLE)
    else GivenPolicy(true, mode, if mode == SOFTCORE && offlineCasual then PROXY else DIRECT, raGameId, certification)
  }

  /** The files of the device. */
  datatype Disk = Disk(
    /** What processes see. */
    files: map<File, ByteString>,
    /** For files whose directory entry is not known to be on disk: everything that may be there after a crash. */
    unsure: map<File, set<Option<ByteString>>>
  ) {
    function Seen(file: File): Option<ByteString> {
      if file in files then Some(files[file]) else None
    }

    /** What the file may hold after a crash now. */
    function MayHold(file: File): (held: set<Option<ByteString>>)
      ensures Seen(file) in held
    {
      (if file in unsure then unsure[file] else {}) + {Seen(file)}
    }

    /** The request on disk is the one that is seen. */
    predicate Settled(request: File) {
      MayHold(request) == {Seen(request)}
    }

    /** Whatever a crash leaves, the request is complete and valid, and each config it names that is there fits it. */
    ghost predicate Sound(request: File) {
      SoundBut(request, Nothing)
    }

    /** The same, not counting what is pending. */
    ghost predicate SoundBut(request: File, pending: Pending) {
      forall bytes | Some(bytes) in MayHold(request) ::
        exists root :: Holds(bytes, root) && ConfigsFit(root, pending)
    }

    ghost predicate ConfigsFit(root: Json, pending: Pending) {
      forall file, bytes | Names(root, file) && Some(bytes) in MayHold(file) && pending != Put(file, bytes) ::
        ConfigFor(bytes, root)
    }

    /** Every request that may be on disk and names the file wants the config that this one wants. */
    ghost predicate Agrees(request: File, file: File, root: Json) {
      AllAgree(MayHold(request), file, root)
    }

    /** The request as it is seen, if it can be read and is valid. */
    ghost function Current(request: File): Option<Json> {
      if Seen(request).None? then None
      else
        match Load(Seen(request).value)
        case None => None
        case Some(root) => if ValidRequest(root) then Some(root) else None
    }

    /** Every request that may be on disk and names the file wants the config that the current one wants. */
    ghost predicate CurrentAgrees(request: File, file: File) {
      Current(request).Some? && Agrees(request, file, Current(request).value)
    }

    /** Sound exactly where the text wanted is not on disk, or all requests that may be there want it. */
    ghost predicate SoundExactlyIf(request: File, before: Option<Json>, file: File, username: ByteString,
                                   token: ByteString, host: Option<ByteString>) {
      && before.Some?
      && (Sound(request) <==>
           WantedConfig(before, username, token, host) !in MayHold(file) ||
           Agrees(request, file, before.value))
    }

    /** All files but these are as they were, also after a crash. */
    ghost predicate SameBut(before: Disk, changed: set<File>) {
      forall f | f !in changed :: Seen(f) == before.Seen(f) && MayHold(f) == before.MayHold(f)
    }

    /**
     The config was written over the request and the longer request over that, as far as the outcome says, and
     what was there last may have been removed.
     */
    ghost predicate Overwritten(before: Disk, request: File, text: ByteString, longer: ByteString, outcome: Outcome) {
      && SameBut(before, {request})
      && MayHold(request) <= before.MayHold(request) + {Some(text), Some(longer), None}
      && Seen(request) in {before.Seen(request), Some(text), Some(longer), None}
      && (outcome == Failed ==> Seen(request) in {before.Seen(request), Some(text), None})
      && (outcome == Unsynced ==> Seen(request) in {Some(text), Some(longer), None})
    }

    /** The same, and sound exactly where nothing that was written remains. */
    ghost predicate OverwrittenExactly(before: Disk, request: File, text: ByteString, longer: ByteString,
                                       outcome: Outcome) {
      && Overwritten(before, request, text, longer, outcome)
      && (Sound(request) <==> Some(text) !in MayHold(request) && Some(longer) !in MayHold(request))
    }

    /** A config for the current request was written over that request. */
    ghost predicate OverwrittenBy(before: Disk, request: File, config: Path, username: ByteString, token: ByteString,
                                  host: Option<ByteString>, outcome: Outcome) {
      && before.Current(request).Some? && before.Current(request).value.Object?
      && var root := before.Current(request).value;
      && var text, longer := WantedConfig(Some(root), username, token, host).value, Text(WithConfig(root, config));
      && OverwrittenExactly(before, request, text, longer, outcome)
    }

    /**
     Where the request was overwritten it is sound exactly if neither written text may still be there. A failure
     may leave what it held before, the config or nothing; where syncing failed it holds one of the texts or nothing.
     */
    lemma {:induction false} OverwrittenMeans(before: Disk, request: File, root: Json, config: Path,
                                              username: ByteString, token: ByteString, host: Option<ByteString>,
                                              outcome: Outcome)
      requires before.Current(request) == Some(root) && root.Object?
      requires OverwrittenBy(before, request, config, username, token, host, outcome)
      ensures var text := ConfigText(username, token, Hardcore(root), if Proxied(root) then host else None);
              var longer := Text(WithConfig(root, config));
              && (Sound(request) <==> Some(text) !in MayHold(request) && Some(longer) !in MayHold(request))
              && (outcome == Failed ==> Seen(request) in {before.Seen(request), Some(text), None})
              && (outcome == Unsynced ==> Seen(request) in {Some(text), Some(longer), None})
    {
      hide *;
      OverwrittenByIs(before, request, root, config, username, token, host, outcome);
      ExactlyMeans(before, request, ConfigText(username, token, Hardcore(root), if Proxied(root) then host else None),
                   Text(WithConfig(root, config)), outcome);
    }

    lemma ExactlyMeans(before: Disk, request: File, text: ByteString, longer: ByteString, outcome: Outcome)
      requires OverwrittenExactly(before, request, text, longer, outcome)
      ensures Sound(request) <==> Some(text) !in MayHold(request) && Some(longer) !in MayHold(request)
      ensures outcome == Failed ==> Seen(request) in {before.Seen(request), Some(text), None}
      ensures outcome == Unsynced ==> Seen(request) in {Some(text), Some(longer), None}
    {
    }

    lemma {:induction false} OverwrittenByIs(before: Disk, request: File, root: Json, config: Path,
                                             username: ByteString,
                                             token: ByteString, host: Option<ByteString>, outcome: Outcome)
      requires before.Current(request) == Some(root) && root.Object?
      ensures var text := ConfigText(username, token, Hardcore(root), if Proxied(root) then host else None);
              var longer := Text(WithConfig(root, config));
              OverwrittenBy(before, request, config, username, token, host, outcome) <==>
              OverwrittenExactly(before, request, text, longer, outcome)
    {
      hide OverwrittenExactly, Current, ConfigText, Text, WithConfig, Hardcore, Proxied;
    }

    lemma {:induction false} SameAsItself(changed: set<File>)
      ensures SameBut(this, changed)
    {
    }

    lemma {:induction false} SameButIs(before: Disk, changed: set<File>, file: File)
      requires SameBut(before, changed) && file !in changed
      ensures Seen(file) == before.Seen(file) && MayHold(file) == before.MayHold(file)
    {
    }

    lemma {:induction false} SameButMore(before: Disk, some: set<File>, changed: set<File>)
      requires SameBut(before, some) && some <= changed
      ensures SameBut(before, changed)
    {
      hide Seen, MayHold;
    }

    lemma {:induction false} SameButThen(middle: Disk, before: Disk, first: set<File>, second: set<File>,
                                         changed: set<File>)
      requires middle.SameBut(before, first) && SameBut(middle, second) && first <= changed && second <= changed
      ensures SameBut(before, changed)
    {
      hide Seen, MayHold;
    }

    lemma {:induction false} OverwrittenIs(before: Disk, request: File, text: ByteString, longer: ByteString,
                                           outcome: Outcome)
      requires SameBut(before, {request})
      requires MayHold(request) <= before.MayHold(request) + {Some(text), Some(longer), None}
      requires Seen(request) in {before.Seen(request), Some(text), Some(longer), None}
      requires outcome == Failed ==> Seen(request) in {before.Seen(request), Some(text), None}
      requires outcome == Unsynced ==> Seen(request) in {Some(text), Some(longer), None}
      ensures Overwritten(before, request, text, longer, outcome)
    {
      hide Seen, MayHold, SameBut;
    }

    /** A request overwritten by its own config is sound again exactly where nothing that was written remains. */
    lemma {:induction false} OverwrittenSound(before: Disk, request: File, root: Json, text: ByteString, longer: Json,
                                              outcome: Outcome)
      requires before.Sound(request) && ConfigFor(text, root) && ValidRequest(longer) && Names(longer, request)
      requires Overwritten(before, request, text, Text(longer), outcome)
      ensures OverwrittenExactly(before, request, text, Text(longer), outcome)
    {
      hide Holds, Names, ConfigFor, ConfigsFit, Text, ValidRequest, Seen, MayHold;
      if Sound(request) {
        NeverNamesItself(request, Nothing);
        if Some(text) in MayHold(request) {
          var r :| Holds(text, r);
          RequestIsNoConfig(text, r, root);
          assert false;
        }
        if Some(Text(longer)) in MayHold(request) {
          var r :| Holds(Text(longer), r) && !Names(r, request);
          HoldsText(longer);
          HeldOnce(Text(longer), longer, r);
          assert false;
        }
      } else {
        before.NeverNamesItself(request, Nothing);
        OldSound(before, request, text, Text(longer));
      }
    }

    lemma {:induction false} OldSound(before: Disk, request: File, text: ByteString, longer: ByteString)
      requires SameBut(before, {request})
      requires MayHold(request) <= before.MayHold(request) + {Some(text), Some(longer), None}
      requires forall bytes | Some(bytes) in before.MayHold(request) ::
                 exists r :: Holds(bytes, r) && before.ConfigsFit(r, Nothing) && !Names(r, request)
      ensures Some(text) !in MayHold(request) && Some(longer) !in MayHold(request) ==> Sound(request)
    {
      hide Holds, Names, ConfigFor, MayHold;
      if Some(text) !in MayHold(request) && Some(longer) !in MayHold(request) {
        forall bytes | Some(bytes) in MayHold(request)
          ensures exists r :: Holds(bytes, r) && ConfigsFit(r, Nothing)
        {
          assert Some(bytes) in before.MayHold(request);
          var r :| Holds(bytes, r) && before.ConfigsFit(r, Nothing) && !Names(r, request);
          assert ConfigsFit(r, Nothing);
        }
      }
    }

    /** A request that may be on disk does not name its own file as a config. */
    lemma {:induction false} NeverNamesItself(request: File, pending: Pending)
      requires SoundBut(request, pending) && (pending.Put? ==> pending.file != request)
      ensures forall bytes | Some(bytes) in MayHold(request) ::
                exists root :: Holds(bytes, root) && ConfigsFit(root, pending) && !Names(root, request) {
      hide Holds, Names, ConfigFor;
      forall bytes | Some(bytes) in MayHold(request)
        ensures exists root :: Holds(bytes, root) && ConfigsFit(root, pending) && !Names(root, request)
      {
        var root :| Holds(bytes, root) && ConfigsFit(root, pending);
        if Names(root, request) {
          RequestIsNoConfig(bytes, root, root);
          assert false;
        }
      }
    }

    lemma {:induction false} NoConfigsFit(root: Json)
      requires Configs(root) == []
      ensures ConfigsFit(root, Nothing) && forall file :: !Names(root, file)
    {
      hide Configs, ConfigFor;
    }

    lemma {:induction false} SoundIs(request: File)
      ensures Sound(request) <==> SoundBut(request, Nothing)
    {
      hide SoundBut;
    }

    /** What is sound stays so when something is not counted. */
    lemma {:induction false} SoundBefore(request: File, root: Json, pending: Pending)
      requires Sound(request) && ConfigsFit(root, Nothing)
      ensures SoundBut(request, pending) && ConfigsFit(root, pending)
    {
      hide Holds, Names, ConfigFor, MayHold;
      forall bytes | Some(bytes) in MayHold(request)
        ensures exists r :: Holds(bytes, r) && ConfigsFit(r, pending)
      {
        var r :| Holds(bytes, r) && ConfigsFit(r, Nothing);
        assert ConfigsFit(r, pending);
      }
    }

    /** The pending text does harm exactly where it may be on disk beside a request that wants another one. */
    lemma {:induction false} SoundExactly(request: File, root: Json, file: File, text: ByteString)
      requires SoundBut(request, Put(file, text)) && ConfigFor(text, root)
      ensures Sound(request) <==> Some(text) !in MayHold(file) || AllAgree(MayHold(request), file, root)
    {
      hide Holds, Names, ConfigFor, MayHold, SameMode;
      forall bytes, a, b | Holds(bytes, a) && Holds(bytes, b)
        ensures a == b
      {
        HeldOnce(bytes, a, b);
      }
      forall r
        ensures ConfigFor(text, r) <==> SameMode(r, root)
      {
        FitsMode(text, root, r);
      }
      forall bytes, r | Some(bytes) in MayHold(request) && Holds(bytes, r)
        ensures ConfigsFit(r, Nothing) <==> (Names(r, file) && Some(text) in MayHold(file) ==> SameMode(r, root))
      {
        assert ConfigsFit(r, Put(file, text));
      }
    }

    lemma {:induction false} SoundExactlyIs(request: File, root: Json, file: File, username: ByteString,
                                            token: ByteString, host: Option<ByteString>)
      ensures var text := ConfigText(username, token, Hardcore(root), if Proxied(root) then host else None);
              && WantedConfig(Some(root), username, token, host) == Some(text)
              && (SoundExactlyIf(request, Some(root), file, username, token, host) <==>
                  (Sound(request) <==> Some(text) !in MayHold(file) || Agrees(request, file, root))) {
      hide Sound, MayHold, Agrees, ConfigText, Hardcore, Proxied;
    }

    lemma {:induction false} CurrentAgreesIs(request: File, file: File)
      ensures CurrentAgrees(request, file) ==> Current(request).Some? && Agrees(request, file, Current(request).value)
    {
      hide Current, Agrees;
    }

    lemma {:induction false} AgreesIs(request: File, file: File, root: Json)
      ensures Agrees(request, file, root) <==> AllAgree(MayHold(request), file, root)
    {
      hide AllAgree, MayHold;
    }

    /** The request that is read is the one that was written. */
    lemma {:induction false} CurrentHolds(request: File, root: Json)
      requires Sound(request) && Current(request) == Some(root)
      ensures ValidRequest(root) && Seen(request) == Some(Text(root)) && ConfigsFit(root, Nothing) &&
                !Names(root, request)
    {
      hide Holds, Names, ConfigFor, ConfigsFit, Text, ValidRequest, Load;
      NeverNamesItself(request, Nothing);
      var bytes := Seen(request).value;
      var r :| Holds(bytes, r) && ConfigsFit(r, Nothing) && !Names(r, request);
      HeldLoads(bytes, r);
    }

    lemma {:induction false} LongerFits(root: Json, longer: Json, pending: Pending)
      requires ConfigsFit(root, pending) && pending.Put? && MayHold(pending.file) == {Some(pending.text)}
      requires forall file :: Names(longer, file) ==> Names(root, file) || file == pending.file
      requires forall bytes | ConfigFor(bytes, root) :: ConfigFor(bytes, longer)
      ensures ConfigsFit(longer, pending)
    {
      hide Names, ConfigFor, MayHold;
    }

    /** A request that names its own file is never sound. */
    lemma {:induction false} SelfNamedUnsound(request: File, root: Json)
      requires Seen(request) == Some(Text(root)) && ValidRequest(root)
      ensures Names(root, request) ==> !Sound(request)
    {
      hide Holds, Names, ConfigFor, ConfigsFit, Text, ValidRequest;
      if Sound(request) {
        NeverNamesItself(request, Nothing);
        var bytes := Text(root);
        assert Some(bytes) in MayHold(request);
        var r :| Holds(bytes, r) && !Names(r, request);
        HoldsText(root);
        HeldOnce(bytes, root, r);
      }
    }

    /**
     How it goes wrong: an older request that names the file may still be on disk, and so may the text of a
     newer request with another mode.
     */
    lemma {:induction false} OlderRequestUnsound(request: File, file: File, older: Json, newer: Json, text: ByteString)
      requires Some(Text(older)) in MayHold(request) && ValidRequest(older) && Names(older, file)
      requires Some(text) in MayHold(file) && ConfigFor(text, newer) && !SameMode(older, newer)
      ensures !Sound(request)
    {
      hide Holds, Names, ConfigFor, Text, ValidRequest, SameMode, MayHold;
      if Sound(request) {
        var r :| Holds(Text(older), r) && ConfigsFit(r, Nothing);
        HoldsText(older);
        HeldOnce(Text(older), older, r);
        FitsMode(text, newer, older);
      }
    }

    lemma {:induction false} CurrentValid(request: File)
      ensures Current(request).Some? ==> ValidRequest(Current(request).value) && Current(request).value.Object?
    {
    }
  }

  class Session {
    const request: File
    const memory: Allocator
    var disk: Disk

    constructor (directory: Path, path: Path, memory: Allocator)
      ensures request ==
              FileOf(if path != [] && path[0] == GameId.SLASH then path else directory + [GameId.SLASH] + path)
      ensures this.memory == memory && disk == Disk(map[], map[])
      ensures disk.Sound(request) && disk.Settled(request)
    {
      hide Holds, Names, ConfigFor, FileOf;
      request := FileOf(if path != [] && path[0] == GameId.SLASH then path else directory + [GameId.SLASH] + path);
      this.memory := memory;
      disk := Disk(map[], map[]);
    }

    // ----- Files -----

    /** Writes piece by piece until everything is written or a write fails. */
    method WriteTemporary(data: ByteString) returns (temporary: ByteString, ok: bool)
      ensures ok ==> temporary == data
    {
      temporary := [];
      var written := 0;
      while written < |data|
        invariant 0 <= written <= |data| && temporary == data[..written]
      {
        var result: int := *;
        if result <= 0 || result > |data| - written {
          break;
        }
        temporary := temporary + data[written..written + result];
        assert data[..written + result] == data[..written] + data[written..written + result];
        written := written + result;
      }
      var synced: bool := *;
      ok := written == |data| && synced;
      assert ok ==> data[..written] == data;
    }

    method AtomicWrite(file: File, data: ByteString) returns (outcome: Outcome)
      modifies `disk
      ensures disk.SameBut(old(disk), {file})
      ensures outcome == Written ==> disk.Seen(file) == Some(data) && disk.MayHold(file) == {Some(data)}
      ensures outcome == Failed ==> disk == old(disk)
      ensures outcome == Unsynced ==>
                disk.Seen(file) == Some(data) && disk.MayHold(file) == old(disk).MayHold(file) + {Some(data)}
      ensures outcome != Refused
      ensures disk.Seen(file) == old(disk).Seen(file) || disk.Seen(file) == Some(data)
      ensures disk.MayHold(file) <= old(disk).MayHold(file) + {Some(data)}
      ensures forall root, pending |
                old(disk).ConfigsFit(root, pending) &&
                    (Names(root, file) ==> pending == Put(file, data) || ConfigFor(data, root)) ::
                disk.ConfigsFit(root, pending)
      ensures file != request && old(disk).SoundBut(request, Put(file, data)) ==>
                disk.SoundBut(request, Put(file, data))
    {
      hide Names, Holds, ConfigFor;
      var power: bool := *;
      if !power {
        return Crashed;
      }
      var temporary, ok := WriteTemporary(data);
      var renamed: bool := *;
      if !ok || !renamed {
        return Failed;
      }
      disk := Disk(disk.files[file := temporary], disk.unsure[file := disk.MayHold(file)]);
      power := *;
      if !power {
        return Crashed;
      }
      var synced: bool := *;
      if !synced {
        return Unsynced;
      }
      disk := disk.(unsure := map f | f in disk.unsure && f != file :: disk.unsure[f]);
      return Written;
    }

    method Unlink(file: File)
      modifies `disk
      ensures disk.SameBut(old(disk), {file})
      ensures disk.Seen(file) == None || disk.Seen(file) == old(disk).Seen(file)
      ensures disk.MayHold(file) <= old(disk).MayHold(file) + {None}
      ensures forall root, pending | old(disk).ConfigsFit(root, pending) :: disk.ConfigsFit(root, pending)
      ensures forall pending | file != request && old(disk).SoundBut(request, pending) ::
                disk.SoundBut(request, pending)
    {
      hide Names, Holds, ConfigFor;
      var ok: bool := *;
      if ok {
        disk := Disk(map f | f in disk.files && f != file :: disk.files[f], disk.unsure[file := disk.MayHold(file)]);
      }
    }

    /** After a crash every file holds one of the things it may hold, and that is on disk. */
    method Recover()
      requires disk.Sound(request)
      modifies `disk
      ensures forall f :: disk.Seen(f) in old(disk).MayHold(f) && disk.MayHold(f) == {disk.Seen(f)}
      ensures disk.Sound(request) && disk.Settled(request)
    {
      hide Holds, Names, ConfigFor;
      var left := disk.unsure.Keys;
      var found := disk.files;
      while left != {}
        invariant left <= disk.unsure.Keys
        invariant forall f | f !in disk.unsure || f in left ::
                    (f in found <==> f in disk.files) && (f in found ==> found[f] == disk.files[f])
        invariant forall f | f in disk.unsure && f !in left ::
                    (if f in found then Some(found[f]) else None) in disk.MayHold(f)
        decreases left
      {
        var f :| f in left;
        var held :| held in disk.MayHold(f);
        left := left - {f};
        found := if held.Some? then found[f := held.value] else map g | g in found && g != f :: found[g];
      }
      disk := Disk(found, map[]);
    }

    // ----- Commands -----

    method LoadValid() returns (root: Option<Json>)
      modifies memory
      ensures memory.Refused() >= old(memory.Refused())
      ensures root == if memory.Refused() == old(memory.Refused()) then disk.Current(request) else None
    {
      hide Load, ValidRequest, Allocator.Refused;
      var granted := memory.Ask();
      if !granted || request !in disk.files {
        return None;
      }
      root := Load(disk.files[request]);
      if root.Some? {
        var ok := IsValidRequest(root.value);
        if !ok {
          root := None;
        }
      }
    }

    /** Writes a valid request. Where it starts out sound, and the request fits, it stays sound. */
    method WriteRequest(root: Json, ghost pending: Pending, ghost sound: bool) returns (outcome: Outcome)
      requires ValidRequest(root)
      requires sound ==>
                 && disk.SoundBut(request, pending) && disk.ConfigsFit(root, pending) && !Names(root, request)
                 && (pending.Put? ==> pending.file != request)
      modifies `disk, memory
      ensures sound ==> disk.SoundBut(request, pending)
      ensures memory.Refused() >= old(memory.Refused())
      ensures disk.SameBut(old(disk), {request})
      ensures disk.Seen(request) == old(disk).Seen(request) || disk.Seen(request) == Some(Text(root))
      ensures disk.MayHold(request) <= old(disk).MayHold(request) + {Some(Text(root))}
      ensures outcome == Written ==>
                && disk.MayHold(request) == {Some(Text(root))} && disk.Seen(request) == Some(Text(root))
                && disk.Settled(request)
                && memory.Refused() == old(memory.Refused())
      ensures outcome == Failed ==> disk == old(disk)
      ensures outcome == Unsynced ==> disk.Seen(request) == Some(Text(root))
      ensures outcome != Refused
    {
      hide Names, Holds, ConfigFor, Text, ValidRequest, Allocator.Refused;
      if sound {
        disk.NeverNamesItself(request, pending);
      }
      disk.SameAsItself({request});
      ghost var text := Text(root);
      HoldsText(root);
      var granted := memory.Ask();
      if !granted {
        return Failed;
      }
      hide Disk.ConfigsFit, Disk.Seen, Disk.MayHold, Disk.SameBut;
      outcome := AtomicWrite(request, Text(root));
      forall bytes | sound && Some(bytes) in disk.MayHold(request)
        ensures exists r :: Holds(bytes, r) && disk.ConfigsFit(r, pending)
      {
        if Some(bytes) in old(disk).MayHold(request) {
          var r :| Holds(bytes, r) && old(disk).ConfigsFit(r, pending) && !Names(r, request);
          assert disk.ConfigsFit(r, pending);
        } else {
          assert bytes == text && disk.ConfigsFit(root, pending);
        }
      }
    }

    method CreateFile(gameId: ByteString, systemId: ByteString, romPath: ByteString, launcher: ByteString,
                      emulator: ByteString, core: Option<ByteString>, autoLoad: bool) returns (outcome: Outcome)
      requires disk.Sound(request)
      modifies `disk, memory
      ensures disk.Sound(request)
      ensures outcome == Written ==>
                && disk.Settled(request) && Configs(NewRequest(gameId, systemId, romPath, launcher, emulator, core,
                                                               autoLoad)) == []
                && disk.Seen(request) == Some(Text(NewRequest(gameId, systemId, romPath, launcher, emulator, core,
                                                              autoLoad)))
      ensures outcome == Refused || outcome == Failed ==> disk == old(disk)
      ensures disk.SameBut(old(disk), {request})
      ensures ValidRequest(NewRequest(gameId, systemId, romPath, launcher, emulator, core, autoLoad)) ==>
                outcome != Refused
      ensures !ValidRequest(NewRequest(gameId, systemId, romPath, launcher, emulator, core, autoLoad)) ==>
                outcome == Refused || outcome == Failed
    {
      hide *;
      disk.SameAsItself({request});
      var granted := memory.Ask();
      if !granted {
        return Failed;
      }
      var root := NewRequest(gameId, systemId, romPath, launcher, emulator, core, autoLoad);
      var ok := IsValidRequest(root);
      if !ok {
        return Refused;
      }
      NewRequestHasNoConfigs(gameId, systemId, romPath, launcher, emulator, core, autoLoad);
      disk.NoConfigsFit(root);
      disk.SoundIs(request);
      outcome := WriteRequest(root, Nothing, true);
      disk.SoundIs(request);
    }

    /**
     Only the core changes. Where memory is refused for the new value the code does not notice: it writes the
     request as it was and reports success.
     */
    method SetCore(core: ByteString) returns (outcome: Outcome)
      requires disk.Sound(request)
      modifies `disk, memory
      ensures disk.Sound(request)
      ensures Frozen(old(disk).Current(request)) ==> outcome == Refused
      ensures outcome == Written ==>
                disk.Settled(request) && if memory.Refused() == old(memory.Refused())
                    then CoreSet(old(disk).Current(request), disk.Seen(request), core)
                             else Rewritten(old(disk).Current(request), disk.Seen(request))
      ensures outcome == Refused || outcome == Failed ==> disk == old(disk)
      ensures disk.SameBut(old(disk), {request})
      ensures outcome == Refused && memory.Refused() == old(memory.Refused()) ==>
                !ValidCore(core) || old(disk).Current(request).None? || Frozen(old(disk).Current(request))
      ensures !ValidCore(core) || old(disk).Current(request).None? ==> outcome == Refused
    {
      hide *;
      disk.SameAsItself({request});
      var valid := IsValidCore(core);
      if !valid {
        return Refused;
      }
      disk.CurrentValid(request);
      var current := LoadValid();
      FrozenIs(current);
      FrozenIs(old(disk).Current(request));
      if current.None? || Configs(current.value) != [] {
        return Refused;
      }
      WithCoreFields(current.value, core);
      WithCoreValid(current.value, core);
      var granted := memory.Ask();
      var root := if granted then WithCore(current.value, core) else current.value;
      valid := IsValidRequest(root);
      if !valid {
        return Refused;
      }
      disk.NoConfigsFit(root);
      disk.SoundIs(request);
      outcome := WriteRequest(root, Nothing, true);
      disk.SoundIs(request);
      CoreSetIs(current.value, core);
      RewrittenIs(current.value);
    }

    method SetAchievements(enabled: bool, mode: ByteString, transport: ByteString, raGameId: int,
                           certification: ByteString)
      returns (outcome: Outcome)
      requires disk.Sound(request)
      modifies `disk, memory
      ensures disk.Sound(request)
      ensures Frozen(old(disk).Current(request)) ==> outcome == Refused
      ensures outcome == Written ==>
                disk.Settled(request) && PolicySet(old(disk).Current(request), disk.Seen(request),
                                                   GivenPolicy(enabled, mode, transport, raGameId, certification))
      ensures outcome == Refused || outcome == Failed ==> disk == old(disk)
      ensures disk.SameBut(old(disk), {request})
      ensures outcome == Refused && memory.Refused() == old(memory.Refused()) ==>
                !MaySet(old(disk).Current(request), GivenPolicy(enabled, mode, transport, raGameId, certification))
      ensures !MaySet(old(disk).Current(request), GivenPolicy(enabled, mode, transport, raGameId, certification)) ==>
                outcome == Refused
    {
      hide *;
      disk.SameAsItself({request});
      disk.CurrentValid(request);
      var current := LoadValid();
      FrozenIs(current);
      MaySetIs(old(disk).Current(request), GivenPolicy(enabled, mode, transport, raGameId, certification));
      FrozenIs(old(disk).Current(request));
      if current.None? || Configs(current.value) != [] {
        return Refused;
      }
      var policy := GivenPolicy(enabled, mode, transport, raGameId, certification);
      WithPolicyFields(current.value, policy);
      var root := WithPolicy(current.value, policy);
      var granted := memory.Ask();
      var valid := IsValidRequest(root);
      if !granted || !valid {
        return Refused;
      }
      disk.NoConfigsFit(root);
      disk.SoundIs(request);
      outcome := WriteRequest(root, Nothing, true);
      disk.SoundIs(request);
      PolicySetIs(current.value, policy);
    }

    /**
     Chooses the transport: hardcore is always direct, softcore goes through the proxy exactly when
     offline play is asked for.
     */
    method ResolveAchievementTransport(enabled: bool, mode: ByteString, offlineCasual: bool, proxyReady: bool,
                                       raGameId: int,
                                       certification: ByteString) returns (outcome: Outcome)
      requires disk.Sound(request)
      modifies `disk, memory
      ensures disk.Sound(request)
      ensures Frozen(old(disk).Current(request)) ==> outcome == Refused
      ensures enabled && offlineCasual && !proxyReady && mode == SOFTCORE ==> outcome == Refused
      ensures outcome == Written ==>
                disk.Settled(request) && PolicySet(old(disk).Current(request), disk.Seen(request),
                                                   ResolvedPolicy(enabled, mode, offlineCasual, raGameId,
                                                                  certification))
      ensures outcome == Refused || outcome == Failed ==> disk == old(disk)
      ensures disk.SameBut(old(disk), {request})
      ensures enabled && mode != HARDCORE && mode != SOFTCORE ==> outcome == Refused
      ensures outcome == Refused && memory.Refused() == old(memory.Refused()) ==>
                || (enabled && mode != HARDCORE && mode != SOFTCORE)
                || (enabled && offlineCasual && !proxyReady && mode == SOFTCORE)
                || !MaySet(old(disk).Current(request),
                           ResolvedPolicy(enabled, mode, offlineCasual, raGameId, certification))
    {
      hide *;
      disk.SameAsItself({request});
      ModesDiffer();
      ResolvedPolicyIs(enabled, mode, offlineCasual, raGameId, certification);
      if !enabled {
        outcome := SetAchievements(false, DISABLED, UNAVAILABLE, 0, NOT_APPLICABLE);
      } else if mode == HARDCORE {
        outcome := SetAchievements(true, HARDCORE, DIRECT, raGameId, certification);
      } else if mode != SOFTCORE || (offlineCasual && !proxyReady) {
        outcome := Refused;
      } else {
        outcome := SetAchievements(true, SOFTCORE, if offlineCasual then PROXY else DIRECT, raGameId, certification);
      }
    }

    /**
     Writes a config for the policy, then the request that names it; takes the config away again if that fails.
     The state stays sound when every request that may still be on disk and names that file wants the same
     config. Once the new text may be on disk that is also necessary. A config path that leads to the request
     itself overwrites it; even a failure may leave the config or nothing in its place.
     */
    method WriteRaConfig(config: Path, username: ByteString, token: ByteString, proxyHost: Option<ByteString>)
      returns (outcome: Outcome)
      requires disk.Sound(request)
      modifies `disk, memory
      ensures outcome == Refused ==> disk == old(disk)
      ensures disk.SameBut(old(disk), {request, FileOf(config)})
      ensures outcome == Failed ==> disk.SameBut(old(disk), {FileOf(config)})
      ensures outcome != Refused && FileOf(config) == request ==>
                disk.OverwrittenBy(old(disk), request, config, username, token, proxyHost, outcome)
      ensures outcome != Refused && FileOf(config) != request ==>
                && disk.SoundExactlyIf(request, old(disk).Current(request), FileOf(config), username, token, proxyHost)
                && (old(disk).CurrentAgrees(request, FileOf(config)) ==> disk.Sound(request))
      ensures outcome == Written ==>
                && disk.Settled(request) && ConfigAdded(old(disk).Current(request), disk.Seen(request), config)
                && (disk.Sound(request) <==> FileOf(config) != request)
                && (FileOf(config) != request ==>
                      disk.Seen(FileOf(config)) == WantedConfig(old(disk).Current(request), username, token, proxyHost))
      ensures outcome == Written && FileOf(config) != request ==>
                && old(disk).Current(request).Some? && disk.Seen(FileOf(config)).Some?
                && var hardcore := PolicySays(old(disk).Current(request).value, "mode", "hardcore");
                && var proxied := PolicySays(old(disk).Current(request).value, "transport", "proxy");
                && var settings := Settings(disk.Seen(FileOf(config)).value);
                && Setting(Ascii("cheevos_enable"), Ascii("true")) in settings
                && Setting(Ascii("cheevos_username"), username) in settings
                && Setting(Ascii("cheevos_token"), token) in settings
                && var flag := Ascii(if hardcore then "true" else "false");
                && Setting(Ascii("cheevos_hardcore_mode_enable"), flag) in settings
                && (hardcore ==>
                      && Setting(Ascii("savestate_auto_load"), Ascii("false")) in settings
                      && Setting(Ascii("rewind_enable"), Ascii("false")) in settings
                      && Setting(Ascii("input_load_state"), Ascii("nul")) in settings)
                && (proxied ==>
                      proxyHost.Some? && Setting(Ascii("cheevos_custom_host"), proxyHost.value) in settings)
                && |settings| == (if hardcore then 17 else 6) + (if proxied then 1 else 0)
      ensures outcome == Refused && memory.Refused() == old(memory.Refused()) ==>
                !MayConfigure(old(disk).Current(request), config, username, token, proxyHost)
      ensures !MayConfigure(old(disk).Current(request), config, username, token, proxyHost) ==> outcome == Refused
    {
      hide *;
      MayConfigureIs(old(disk).Current(request), config, username, token, proxyHost);
      disk.SameAsItself({request, FileOf(config)});
      var under := IsPathUnder(config, SESSION_ROOT);
      if !under {
        return Refused;
      }
      disk.CurrentValid(request);
      disk.CurrentAgreesIs(request, FileOf(config));
      var current := LoadValid();
      if current.None? {
        return Refused;
      }
      var root := current.value;
      var enabled := Policy(root).Some? && Policy(root).value.Object? &&
          Field(Policy(root).value.members, ENABLED) == Some(True);
      if !enabled || !SafeConfigValue(username) || !SafeConfigValue(token) {
        return Refused;
      }
      var proxy := Proxied(root);
      if proxy && (proxyHost.None? || !SafeConfigValue(proxyHost.value)) {
        return Refused;
      }
      var text := ConfigText(username, token, Hardcore(root), if proxy then proxyHost else None);
      if |text| >= MAX_CONFIG {
        return Refused;
      }
      FitsPolicy(text, root, username, token, if proxy then proxyHost else None);
      WantedSettings(root, username, token, proxyHost);
      WithConfigValid(root, config);
      outcome := StoreConfig(root, config, text);
      ConfigAddedIs(root, config);
      disk.OverwrittenByIs(old(disk), request, root, config, username, token, proxyHost, outcome);
      disk.SoundExactlyIs(request, root, FileOf(config), username, token, proxyHost);
    }

    /** The two files of a config, the config first. */
    method StoreConfig(root: Json, config: Path, text: ByteString) returns (outcome: Outcome)
      requires disk.Sound(request) && disk.Current(request) == Some(root) && ConfigFor(text, root) &&
                 ValidRequest(root) && root.Object?
      requires PathUnder(config, SESSION_ROOT)
      modifies `disk, memory
      ensures FileOf(config) != request ==>
                && (disk.Sound(request) <==>
                     Some(text) !in disk.MayHold(FileOf(config)) ||
                     disk.Agrees(request, FileOf(config), root))
                && (old(disk).Agrees(request, FileOf(config), root) ==> disk.Sound(request))
      ensures outcome == Written ==>
                && disk.Seen(request) == Some(Text(WithConfig(root, config))) && disk.Settled(request)
                && (FileOf(config) != request ==> disk.Seen(FileOf(config)) == Some(text))
                && (disk.Sound(request) <==> FileOf(config) != request)
      ensures outcome != Refused
      ensures disk.SameBut(old(disk), {request, FileOf(config)})
      ensures outcome == Failed ==> disk.SameBut(old(disk), {FileOf(config)})
      ensures FileOf(config) == request ==>
                disk.OverwrittenExactly(old(disk), request, text, Text(WithConfig(root, config)), outcome)
    {
      hide *;
      ValidFields(root);
      disk.AgreesIs(request, FileOf(config), root);
      outcome := StoreBoth(root, config, text);
      ghost var longer := WithConfig(root, config);
      LongerNames(root, config, text);
      disk.AgreesIs(request, FileOf(config), root);
      if FileOf(config) == request {
        disk.OverwrittenSound(old(disk), request, root, text, longer, outcome);
        if outcome == Written {
          disk.SelfNamedUnsound(request, longer);
        }
      } else {
        disk.SoundExactly(request, root, FileOf(config), text);
        if outcome == Written {
          GrownAgree({}, disk.MayHold(request), FileOf(config), root, longer);
        } else if AllAgree(old(disk).MayHold(request), FileOf(config), root) {
          GrownAgree(old(disk).MayHold(request), disk.MayHold(request), FileOf(config), root, longer);
        }
      }
    }

    method StoreBoth(root: Json, config: Path, text: ByteString) returns (outcome: Outcome)
      requires disk.Sound(request) && disk.Current(request) == Some(root) && ConfigFor(text, root) &&
                 ValidRequest(root) && root.Object?
      requires PathUnder(config, SESSION_ROOT)
      modifies `disk, memory
      ensures FileOf(config) != request ==>
                && disk.SoundBut(request, Put(FileOf(config), text))
                && disk.MayHold(request) <= old(disk).MayHold(request) + {Some(Text(WithConfig(root, config)))}
      ensures outcome == Written ==>
                && disk.Seen(request) == Some(Text(WithConfig(root, config))) && disk.Settled(request)
                && disk.MayHold(request) == {Some(Text(WithConfig(root, config)))}
                && (FileOf(config) != request ==> disk.Seen(FileOf(config)) == Some(text))
      ensures outcome != Refused
      ensures disk.SameBut(old(disk), {request, FileOf(config)})
      ensures outcome == Failed ==> disk.SameBut(old(disk), {FileOf(config)})
      ensures FileOf(config) == request ==>
                disk.Overwritten(old(disk), request, text, Text(WithConfig(root, config)), outcome)
    {
      hide *;
      ghost var sound := FileOf(config) != request;
      ghost var pending := Put(FileOf(config), text);
      ValidFields(root);
      var longer := WithConfig(root, config);
      LongerNames(root, config, text);
      disk.CurrentHolds(request, root);
      disk.SoundBefore(request, root, pending);
      ghost var before, changed := disk, {request, FileOf(config)};
      outcome := AtomicWrite(FileOf(config), text);
      disk.SameButMore(before, {FileOf(config)}, changed);
      if sound {
        disk.SameButIs(before, {FileOf(config)}, request);
      } else {
        disk.OverwrittenIs(before, request, text, Text(longer), outcome);
      }
      if outcome != Written {
        return;
      }
      if sound {
        disk.LongerFits(root, longer, pending);
      }
      ghost var first := disk;
      outcome := WriteRequest(longer, pending, sound);
      ghost var second := disk;
      disk.SameButThen(first, before, {FileOf(config)}, {request}, changed);
      if sound {
        disk.SameButIs(first, {request}, FileOf(config));
      }
      if outcome == Failed || outcome == Unsynced {
        Unlink(FileOf(config));
        if outcome == Failed {
          disk.SameButThen(first, before, {FileOf(config)}, {FileOf(config)}, {FileOf(config)});
        }
        disk.SameButThen(second, before, changed, {FileOf(config)}, changed);
        if sound {
          disk.SameButIs(second, {FileOf(config)}, request);
        }
      }
      if !sound {
        disk.SameButMore(before, changed, {request});
        disk.OverwrittenIs(before, request, text, Text(longer), outcome);
      }
    }
  }

  ghost predicate AllAgree(held: set<Option<ByteString>>, file: File, root: Json) {
    forall bytes, other | Some(bytes) in held && Holds(bytes, other) && Names(other, file) :: SameMode(other, root)
  }

  lemma {:induction false} GrownAgree(before: set<Option<ByteString>>, after: set<Option<ByteString>>, file: File,
                                      root: Json,
                                      longer: Json)
    requires AllAgree(before, file, root) || before == {}
    requires after <= before + {Some(Text(longer))} && ValidRequest(longer) && SameMode(longer, root)
    ensures AllAgree(after, file, root)
  {
    hide Holds, Names, SameMode, Text, ValidRequest;
    forall bytes, other | Some(bytes) in after && Holds(bytes, other) && Names(other, file)
      ensures SameMode(other, root)
    {
      if Some(bytes) !in before {
        HoldsText(longer);
        HeldOnce(bytes, other, longer);
      }
    }
  }

  /** The config of one request fits another exactly when they want the same mode. */
  lemma {:induction false} FitsMode(text: ByteString, root: Json, other: Json)
    requires ConfigFor(text, root)
    ensures ConfigFor(text, other) <==> SameMode(other, root)
  {
    hide *;
    var username, token, host := ConfigParts(text, root);
    if ConfigFor(text, other) {
      var username', token', host' := ConfigParts(text, other);
      hide *;
      ConfigDetermines(username, token, Hardcore(root), host, username', token', Hardcore(other), host');
      SameModeIs(root, other);
    }
    if SameMode(other, root) {
      hide *;
      SameModeIs(root, other);
      FitsPolicy(text, other, username, token, host);
    }
  }

  lemma {:induction false} SameModeIs(root: Json, other: Json)
    ensures SameMode(other, root) <==> Hardcore(other) == Hardcore(root) && Proxied(other) == Proxied(root)
  {
    hide Hardcore, Proxied;
  }

  /** A "." or a doubled slash inside a path leads to the same file. */
  lemma {:induction false} SameFile(directory: ByteString, name: ByteString)
    ensures FileOf(directory + [GameId.SLASH] + GameId.DOT + [GameId.SLASH] + name) ==
              FileOf(directory + [GameId.SLASH] + name)
    ensures FileOf(directory + [GameId.SLASH] + [] + [GameId.SLASH] + name) == FileOf(directory + [GameId.SLASH] + name)
  {
    SplitDot();
    hide FileOf;
    SegmentDropped(directory, GameId.DOT, name);
    SegmentDropped(directory, [], name);
  }

  lemma {:induction false} SegmentDropped(directory: ByteString, segment: ByteString, name: ByteString)
    requires GameId.Dropped(segment) && GameId.Split(segment) == [segment]
    ensures FileOf(directory + [GameId.SLASH] + segment + [GameId.SLASH] + name) ==
              FileOf(directory + [GameId.SLASH] + name)
  {
    hide GameId.Split, Walked;
    GameId.SplitSlash(directory + [GameId.SLASH] + segment, name);
    GameId.SplitSlash(directory, segment);
    GameId.SplitSlash(directory, name);
    WalkDropped(GameId.Split(directory), segment, GameId.Split(name), []);
  }

  lemma {:induction false} SplitDot()
    ensures GameId.Split(GameId.DOT) == [GameId.DOT] && GameId.Split([]) == [[]]
  {
    var path, rest := GameId.DOT, GameId.Split([]);
    assert path[1..] == [] && rest == [[]] && rest[1..] == [];
    assert [path[0]] + rest[0] == GameId.DOT;
    assert GameId.Split(path) == [[path[0]] + rest[0]] + rest[1..];
  }

  lemma {:induction false} WalkDropped(front: seq<ByteString>, dropped: ByteString, rest: seq<ByteString>, at: File)
    requires GameId.Dropped(dropped)
    ensures Walked(front + [dropped] + rest, at) == Walked(front + rest, at)
  {
    var long, short := front + [dropped] + rest, front + rest;
    if front == [] {
      assert long[1..] == rest && short == rest;
    } else {
      assert long[1..] == front[1..] + [dropped] + rest && short[1..] == front[1..] + rest;
      WalkDropped(front[1..], dropped, rest, at);
      WalkDropped(front[1..], dropped, rest, if at == [] then [] else at[..|at| - 1]);
      WalkDropped(front[1..], dropped, rest, at + [front[0]]);
    }
  }

  function NewPolicy(): Json {
    PolicyObject(False, DISABLED, UNAVAILABLE, Null, NOT_APPLICABLE)
  }

  function PolicyObject(enabled: Json, mode: ByteString, transport: ByteString, game: Json,
                        certification: ByteString): Json {
    Object([Member(ENABLED, enabled), Member(MODE, String(mode)), Member(TRANSPORT, String(transport)),
            Member(RA_GAME_ID, game), Member(CORE_CERTIFICATION, String(certification))])
  }

  function GivenPolicy(enabled: bool, mode: ByteString, transport: ByteString, raGameId: int,
                       certification: ByteString): Json {
    PolicyObject(if enabled then True else False, mode, transport,
                 if raGameId > 0 then Number(raGameId as real) else Null,
                 certification)
  }

  lemma {:induction false} HeldLoads(bytes: ByteString, root: Json)
    requires Holds(bytes, root)
    ensures ValidRequest(root) && bytes == Text(root) && (Load(bytes).Some? ==> Load(bytes).value == root)
  {
    hide ValidRequest, Text, Load;
    RequestRoundTrip(root);
  }

  /** Different requests never have the same bytes. */
  lemma {:induction false} HeldOnce(bytes: ByteString, a: Json, b: Json)
    requires Holds(bytes, a) && Holds(bytes, b)
    ensures a == b
  {
    hide ValidRequest, Text;
    TextInjective(a, b);
  }

  lemma {:induction false} LongerNames(root: Json, config: Path, text: ByteString)
    requires ValidRequest(root) && PathUnder(config, SESSION_ROOT) && ConfigFor(text, root)
    ensures ValidRequest(WithConfig(root, config)) && SameMode(WithConfig(root, config), root)
    ensures forall file :: Names(WithConfig(root, config), file) <==> Names(root, file) || file == FileOf(config)
    ensures forall bytes | ConfigFor(bytes, root) :: ConfigFor(bytes, WithConfig(root, config))
  {
    hide ValidRequest, PathUnder, WithConfig, Configs, ConfigText, SafeConfigValue, Hardcore, Proxied, Field, FileOf;
    ValidFields(root);
    WithConfigValid(root, config);
    var longer := WithConfig(root, config);
    DifferentKeys();
    ValidFields(longer);
    SamePolicy(root, longer);
    assert Configs(longer)[|Configs(root)|] == String(config);
    forall file
      ensures Names(longer, file) <==> Names(root, file) || file == FileOf(config)
    {
      if Names(root, file) {
        var path :| String(path) in Configs(root) && FileOf(path) == file;
        assert String(path) in Configs(longer);
      }
    }
  }

  lemma {:induction false} FrozenIs(current: Option<Json>)
    ensures Frozen(current) <==> current.Some? && Configs(current.value) != []
  {
  }

  lemma {:induction false} MaySetIs(before: Option<Json>, policy: Json)
    ensures MaySet(before, policy) <==>
            before.Some? && before.value.Object? && Configs(before.value) == [] &&
            ValidRequest(WithPolicy(before.value, policy))
  {
    hide ValidRequest, Configs, WithPolicy;
  }

  /** The conditions in the order and the terms in which the command looks at them. */
  lemma {:induction false} MayConfigureIs(before: Option<Json>, config: Path, username: ByteString, token: ByteString,
                                          host: Option<ByteString>)
    ensures before.Some? && ValidRequest(before.value) ==>
              && var root := before.value;
              && root.Object?
              && (MayConfigure(before, config, username, token, host) <==>
                    && PathUnder(config, SESSION_ROOT)
                    && Policy(root).Some? && Policy(root).value.Object?
                    && Field(Policy(root).value.members, ENABLED) == Some(True)
                    && SafeConfigValue(username) && SafeConfigValue(token)
                    && (Proxied(root) ==> host.Some? && SafeConfigValue(host.value))
                    && |ConfigText(username, token, Hardcore(root), if Proxied(root) then host else None)| < MAX_CONFIG)
    ensures before.None? || !PathUnder(config, SESSION_ROOT) ==>
              !MayConfigure(before, config, username, token, host)
  {
    hide PolicyEnabled, PolicySays, SafeConfigValue, ConfigText, Hardcore, Proxied, SafeText, ValidRequest, Field,
      ENABLED, ACHIEVEMENTS;
    if before.Some? && ValidRequest(before.value) {
      PolicyEnabledMeans(before.value);
      PolicySaysMeans(before.value);
    }
  }

  lemma {:induction false} WantedSettings(root: Json, username: ByteString, token: ByteString,
                                          host: Option<ByteString>)
    requires ValidRequest(root) && SafeConfigValue(username) && SafeConfigValue(token)
    requires Proxied(root) ==> host.Some? && SafeConfigValue(host.value)
    ensures WantedConfig(Some(root), username, token, host).Some?
    ensures var hardcore, proxied := PolicySays(root, "mode", "hardcore"), PolicySays(root, "transport", "proxy");
            var settings := Settings(WantedConfig(Some(root), username, token, host).value);
            && Setting(Ascii("cheevos_enable"), Ascii("true")) in settings
            && Setting(Ascii("cheevos_username"), username) in settings
            && Setting(Ascii("cheevos_token"), token) in settings
            && Setting(Ascii("cheevos_hardcore_mode_enable"), Ascii(if hardcore then "true" else "false")) in settings
            && (hardcore ==>
                  && Setting(Ascii("savestate_auto_load"), Ascii("false")) in settings
                  && Setting(Ascii("rewind_enable"), Ascii("false")) in settings
                  && Setting(Ascii("input_load_state"), Ascii("nul")) in settings)
            && (proxied ==> host.Some? && Setting(Ascii("cheevos_custom_host"), host.value) in settings)
            && |settings| == (if hardcore then 17 else 6) + (if proxied then 1 else 0)
  {
    hide PolicySays, SafeConfigValue, ConfigText, Settings, Hardcore, Proxied, ValidRequest;
    PolicySaysMeans(root);
    SettingsHold(username, token, Hardcore(root), if Proxied(root) then host else None);
  }

  lemma {:induction false} SettingsHold(username: ByteString, token: ByteString, hardcore: bool,
                                        host: Option<ByteString>)
    requires SafeConfigValue(username) && SafeConfigValue(token) && (host.Some? ==> SafeConfigValue(host.value))
    ensures var settings := Settings(ConfigText(username, token, hardcore, host));
            && Setting(Ascii("cheevos_enable"), Ascii("true")) in settings
            && Setting(Ascii("cheevos_username"), username) in settings
            && Setting(Ascii("cheevos_token"), token) in settings
            && Setting(Ascii("cheevos_hardcore_mode_enable"), Ascii(if hardcore then "true" else "false")) in settings
            && (hardcore ==>
                  && Setting(Ascii("savestate_auto_load"), Ascii("false")) in settings
                  && Setting(Ascii("rewind_enable"), Ascii("false")) in settings
                  && Setting(Ascii("input_load_state"), Ascii("nul")) in settings)
            && (host.Some? ==> Setting(Ascii("cheevos_custom_host"), host.value) in settings)
            && |settings| == (if hardcore then 17 else 6) + (if host.Some? then 1 else 0)
  {
    hide *;
    ConfigSettings(username, token, hardcore, host);
    var settings := Settings(ConfigText(username, token, hardcore, host));
    assert settings[0] in settings && settings[1] in settings && settings[2] in settings && settings[3] in settings;
    if hardcore {
      assert settings[6] in settings && settings[7] in settings && settings[10] in settings;
    }
    assert settings[|settings| - 1] in settings;
  }

  /** A config that fits a request carries its flag, and a host exactly where it goes through the proxy. */
  lemma {:induction false} ConfigForMeans(bytes: ByteString, root: Json) returns (host: Option<ByteString>)
    requires ValidRequest(root) && ConfigFor(bytes, root)
    ensures host.Some? <==> PolicySays(root, "transport", "proxy")
    ensures var hardcore, settings := PolicySays(root, "mode", "hardcore"), Settings(bytes);
            && Setting(Ascii("cheevos_hardcore_mode_enable"), Ascii(if hardcore then "true" else "false")) in settings
            && (hardcore ==> Setting(Ascii("savestate_auto_load"), Ascii("false")) in settings)
            && (host.Some? ==> Setting(Ascii("cheevos_custom_host"), host.value) in settings)
            && |settings| == (if hardcore then 17 else 6) + (if host.Some? then 1 else 0)
  {
    hide *;
    var username, token, wanted := ConfigParts(bytes, root);
    host := wanted;
    PolicySaysMeans(root);
    SettingsHold(username, token, Hardcore(root), host);
  }

  lemma {:induction false} CoreSetIs(root: Json, core: ByteString)
    requires root.Object?
    ensures CoreSet(Some(root), Some(Text(WithCore(root, core))), core)
  {
  }

  lemma {:induction false} RewrittenIs(root: Json)
    ensures Rewritten(Some(root), Some(Text(root)))
  {
  }

  lemma {:induction false} PolicySetIs(root: Json, policy: Json)
    requires root.Object?
    ensures PolicySet(Some(root), Some(Text(WithPolicy(root, policy))), policy)
  {
  }

  lemma {:induction false} ConfigAddedIs(root: Json, config: Path)
    requires root.Object?
    ensures ConfigAdded(Some(root), Some(Text(WithConfig(root, config))), config)
  {
  }

  lemma {:induction false} ResolvedPolicyIs(enabled: bool, mode: ByteString, offlineCasual: bool, raGameId: int,
                                            certification: ByteString)
    ensures ResolvedPolicy(enabled, mode, offlineCasual, raGameId, certification) ==
            if !enabled then GivenPolicy(false, DISABLED, UNAVAILABLE, 0, NOT_APPLICABLE)
            else
              GivenPolicy(true, mode, if mode == SOFTCORE && offlineCasual then PROXY else DIRECT, raGameId,
                          certification)
  {
  }

  lemma {:induction false} ModesDiffer()
    ensures HARDCORE != SOFTCORE
  {
    assert HARDCORE[0] != SOFTCORE[0];
  }

  lemma {:induction false} FitsPolicy(bytes: ByteString, root: Json, username: ByteString, token: ByteString,
                                      host: Option<ByteString>)
    requires SafeConfigValue(username) && SafeConfigValue(token) && (host.Some? ==> SafeConfigValue(host.value))
    requires host.Some? <==> Proxied(root)
    requires bytes == ConfigText(username, token, Hardcore(root), host)
    ensures ConfigFor(bytes, root)
  {
    hide Hardcore, Proxied, SafeConfigValue, ConfigText;
  }

  function NewRequest(gameId: ByteString, systemId: ByteString, romPath: ByteString, launcher: ByteString,
                      emulator: ByteString, core: Option<ByteString>, autoLoad: bool): Json {
    Object([Member(SCHEMA, Number(1.0)), Member(GAME_ID, String(gameId)), Member(SYSTEM_ID, String(systemId)),
            Member(ROM_PATH, String(romPath)), Member(LAUNCHER, String(launcher)),
            Member(EMULATOR_TYPE, String(emulator)),
            Member(CORE, if core.Some? then String(core.value) else Null),
            Member(AUTO_LOAD_STATE, if autoLoad then True else False), Member(APPEND_CONFIGS, Array([])),
            Member(REQUESTED_RESOLUTION, Null), Member(ENVIRONMENT, Object([])), Member(ACHIEVEMENTS, NewPolicy())])
  }

  lemma {:induction false} NewRequestHasNoConfigs(gameId: ByteString, systemId: ByteString, romPath: ByteString,
                                                  launcher: ByteString, emulator: ByteString, core: Option<ByteString>,
                                                      autoLoad: bool)
    requires ValidRequest(NewRequest(gameId, systemId, romPath, launcher, emulator, core, autoLoad))
    ensures Configs(NewRequest(gameId, systemId, romPath, launcher, emulator, core, autoLoad)) == []
  {
    hide *;
    var root := NewRequest(gameId, systemId, romPath, launcher, emulator, core, autoLoad);
    NewRequestConfigs(gameId, systemId, romPath, launcher, emulator, core, autoLoad);
    ValidFields(root);
    FieldAt(root.members, 8);
  }

  lemma {:induction false} NewRequestConfigs(gameId: ByteString, systemId: ByteString, romPath: ByteString,
                                             launcher: ByteString, emulator: ByteString, core: Option<ByteString>,
                                                 autoLoad: bool)
    ensures var root := NewRequest(gameId, systemId, romPath, launcher, emulator, core, autoLoad);
            root.Object? && |root.members| == 12 && root.members[8] == Member(APPEND_CONFIGS, Array([]))
  {
    hide NewPolicy;
  }

  /** A request never reads like a config for any request. */
  lemma {:induction false} RequestIsNoConfig(bytes: ByteString, root: Json, other: Json)
    requires Holds(bytes, root)
    ensures !ConfigFor(bytes, other)
  {
    hide *;
    TextOpens(bytes, root);
    if ConfigFor(bytes, other) {
      var username, token, host := ConfigParts(bytes, other);
      OpensWithC(username, token, Hardcore(other), host);
      assert false;
    }
  }

  lemma {:induction false} TextOpens(bytes: ByteString, root: Json)
    requires Holds(bytes, root)
    ensures bytes != [] && bytes[0] == 0x7b
  {
    hide RenderMembers, ValidGame, ValidLaunch, ValidConfigs, ValidPolicy, OnlyKeys, Field, PolicyText;
  }

  lemma {:induction false} ConfigParts(bytes: ByteString, root: Json)
    returns (username: ByteString, token: ByteString, host: Option<ByteString>)
    requires ConfigFor(bytes, root)
    ensures bytes == ConfigText(username, token, Hardcore(root), host)
    ensures SafeConfigValue(username) && SafeConfigValue(token)
    ensures (host.Some? <==> Proxied(root)) && (host.Some? ==> SafeConfigValue(host.value))
  {
    hide Hardcore, Proxied, SafeConfigValue, ConfigText;
    username, token, host :|
      && SafeConfigValue(username) && SafeConfigValue(token)
      && bytes == ConfigText(username, token, Hardcore(root), host)
      && (host.Some? <==> Proxied(root)) && (host.Some? ==> SafeConfigValue(host.value));
  }

  lemma {:induction false} OpensWithC(username: ByteString, token: ByteString, hardcore: bool, host: Option<ByteString>)
    ensures ConfigText(username, token, hardcore, host) != [] && ConfigText(username, token, hardcore, host)[0] == 0x63
  {
    hide HardcoreSettings, HostSettings;
    var name := "cheevos_enable";
    assert name[0] == 'c' && Ascii(name)[0] == 0x63;
    var all := CommonSettings(username, token, hardcore) + (if hardcore then HardcoreSettings() else []) +
               HostSettings(host);
    assert all[0] == Set(name, Ascii("true"));
    assert LineOf(all[0])[0] == 0x63;
    hide CommonSettings;
  }

  // ----- In plain terms: files, requests and policies -----

  /** One more name behind a path: nothing and "." stay, ".." goes up, any other name goes down. */
  lemma {:induction false} FileOfMeans(directory: Path, name: ByteString)
    requires ('/' as int as Byte) !in name
    ensures FileOf([]) == []
    ensures FileOf(directory + Ascii("/") + name) ==
            var at := FileOf(directory);
            if name == [] || name == Ascii(".") then at
            else if name == Ascii("..") then if at == [] then [] else at[..|at| - 1]
            else at + [name]
  {
    hide GameId.Split;
    assert Ascii("/") == [GameId.SLASH] && Ascii(".") == GameId.DOT && Ascii("..") == GameId.DOT_DOT;
    SplitDot();
    GameId.SplitSlash(directory, name);
    GameId.SplitSegment(name, []);
    assert name + [] == name && GameId.Split(name) == [name];
    WalkedOn(GameId.Split(directory), name, []);
  }

  lemma {:induction false} WalkedOn(segments: seq<ByteString>, name: ByteString, at: File)
    ensures Walked(segments + [name], at) ==
            var there := Walked(segments, at);
            if GameId.Dropped(name) then there
            else if name == GameId.DOT_DOT then if there == [] then [] else there[..|there| - 1]
            else there + [name]
  {
    var all := segments + [name];
    if segments == [] {
      assert all[1..] == [];
    } else {
      assert all[1..] == segments[1..] + [name];
      WalkedOn(segments[1..], name, at);
      WalkedOn(segments[1..], name, if at == [] then [] else at[..|at| - 1]);
      WalkedOn(segments[1..], name, at + [segments[0]]);
    }
  }

  /** A policy as it is written: a game number that is not positive becomes null. */
  lemma GivenPolicyMeans(enabled: bool, mode: string, transport: string, raGameId: int, certification: ByteString)
    ensures GivenPolicy(enabled, Ascii(mode), Ascii(transport), raGameId, certification) ==
            Object([Member(Ascii("enabled"), if enabled then True else False),
                    Member(Ascii("mode"), String(Ascii(mode))), Member(Ascii("transport"), String(Ascii(transport))),
                    Member(Ascii("ra_game_id"), if raGameId > 0 then Number(raGameId as real) else Null),
                    Member(Ascii("core_certification"), String(certification))])
  {
  }

  /** Hardcore goes direct, softcore through the proxy where offline play is asked for. */
  lemma ResolvedPolicyMeans(offlineCasual: bool, raGameId: int, certification: ByteString, mode: ByteString)
    ensures ResolvedPolicy(true, Ascii("hardcore"), offlineCasual, raGameId, certification) ==
            GivenPolicy(true, Ascii("hardcore"), Ascii("direct"), raGameId, certification)
    ensures ResolvedPolicy(true, Ascii("softcore"), offlineCasual, raGameId, certification) ==
            GivenPolicy(true, Ascii("softcore"), Ascii(if offlineCasual then "proxy" else "direct"), raGameId,
                        certification)
    ensures ResolvedPolicy(false, mode, offlineCasual, raGameId, certification) ==
            GivenPolicy(false, Ascii("disabled"), Ascii("unavailable"), 0, Ascii("not_applicable"))
  {
    ModesDiffer();
    hide GivenPolicy;
  }

  /** A new request, field by field. */
  lemma NewRequestMeans(gameId: ByteString, systemId: ByteString, romPath: ByteString, launcher: ByteString,
                        emulator: ByteString, core: Option<ByteString>, autoLoad: bool)
    ensures NewRequest(gameId, systemId, romPath, launcher, emulator, core, autoLoad) ==
            Object([Member(Ascii("schema"), Number(1.0)), Member(Ascii("game_id"), String(gameId)),
                    Member(Ascii("system_id"), String(systemId)), Member(Ascii("rom_path"), String(romPath)),
                    Member(Ascii("launcher"), String(launcher)), Member(Ascii("emulator_type"), String(emulator)),
                    Member(Ascii("core"), if core.Some? then String(core.value) else Null),
                    Member(Ascii("auto_load_state"), if autoLoad then True else False),
                    Member(Ascii("append_configs"), Array([])), Member(Ascii("requested_resolution"), Null),
                    Member(Ascii("environment"), Object([])),
                    Member(Ascii("achievements"),
                           Object([Member(Ascii("enabled"), False), Member(Ascii("mode"), String(Ascii("disabled"))),
                                   Member(Ascii("transport"), String(Ascii("unavailable"))),
                                   Member(Ascii("ra_game_id"), Null),
                                   Member(Ascii("core_certification"), String(Ascii("not_applicable")))]))])
  {
  }
}
