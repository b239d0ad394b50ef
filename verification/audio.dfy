/** `AudioService`: the single playback session. Each operation is a function
    from the session (and the audio cache) to the next session. The hymnal's
    current language, the network, and whether the cache write and the
    temporary-file write succeed are all part of the environment. */
module Audio {
  import opened Wrappers
  import opened Text
  import opened Languages
  import opened Storage

  const CacheDirectory: string := "audio_cache"

  /** Remote path of a hymn's recording: the 1941 edition has its own folder,
      and every other edition plays the English 1985 recordings. The number
      goes through `%03d`, so only its low 32 bits show. */
  function AudioPath(l: HymnalLanguage, n: int): string {
    if l == English1941 then "audio/1941/" + SwiftPad3(n) + ".mp3" else "audio/1985/en_" + SwiftPad3(n) + ".mp3"
  }

  /** Cache key of a hymn's recording, prefixed by the edition's year. */
  function AudioCacheKey(l: HymnalLanguage, n: int): string {
    if l == English1941 then "1941_" + SwiftPad3(n) + ".mp3" else "1985_" + SwiftPad3(n) + ".mp3"
  }

  /** Two recordings share a cache key exactly when they are in editions that
      use the same recordings and their numbers agree in the low 32 bits; in
      particular, hymn numbers in the 32-bit range never share a key. */
  lemma AudioCacheKeyInjective(l1: HymnalLanguage, n1: int, l2: HymnalLanguage, n2: int)
    ensures AudioCacheKey(l1, n1) == AudioCacheKey(l2, n2) <==>
              (l1 == English1941 <==> l2 == English1941) && (n1 - n2) % Int32Span == 0
  {
    var k1, k2 := AudioCacheKey(l1, n1), AudioCacheKey(l2, n2);
    var p1 := if l1 == English1941 then "1941_" else "1985_";
    var p2 := if l2 == English1941 then "1941_" else "1985_";
    assert k1 == p1 + SwiftPad3(n1) + ".mp3" && k2 == p2 + SwiftPad3(n2) + ".mp3";
    SwiftPad3Same(n1, n2);
    if k1 == k2 {
      assert k1[3] == p1[3] && k2[3] == p2[3];
      PathSlice(p1, SwiftPad3(n1), ".mp3");
      PathSlice(p2, SwiftPad3(n2), ".mp3");
    }
  }

  /** Where the hymn number sits in a recording's remote path. */
  lemma AudioPathParts(l: HymnalLanguage, n: int)
    ensures AudioPath(l, n)[8] == '4' <==> l == English1941
    ensures l == English1941 ==> AudioPath(l, n)[11..|AudioPath(l, n)| - 4] == SwiftPad3(n)
    ensures l != English1941 ==> AudioPath(l, n)[14..|AudioPath(l, n)| - 4] == SwiftPad3(n)
  {
    var digits := SwiftPad3(n);
    var front: string := if l == English1941 then "audio/1941/" else "audio/1985/en_";
    assert AudioPath(l, n) == front + digits + ".mp3";
    PathSlice(front, digits, ".mp3");
    assert front[8] == if l == English1941 then '4' else '8';
  }

  /** The middle of a three-part name is found between the other two, and
      the name starts with the first part. */
  lemma PathSlice(front: string, mid: string, back: string)
    ensures (front + mid + back)[|front|..|front + mid + back| - |back|] == mid
    ensures forall k :: 0 <= k < |front| ==> (front + mid + back)[k] == front[k]
  {
  }

  /** Likewise for the remote paths. */
  lemma AudioPathInjective(l1: HymnalLanguage, n1: int, l2: HymnalLanguage, n2: int)
    ensures AudioPath(l1, n1) == AudioPath(l2, n2) <==>
              (l1 == English1941 <==> l2 == English1941) && (n1 - n2) % Int32Span == 0
  {
    AudioPathParts(l1, n1);
    AudioPathParts(l2, n2);
    SwiftPad3Same(n1, n2);
  }

  /** The player over the temporary file holding a hymn's recording. */
  datatype Player = Player(hymn: int, audio: Bytes)

  datatype AudioError = DownloadError(cause: StorageError) | TempFileWriteFailed

  /** A completion closure, told apart by an identity. */
  datatype Handler = Handler(id: nat)

  /** The lock-screen "Now Playing" entry. */
  datatype NowPlaying = NowPlaying(title: string, artist: string)

  datatype Session = Session(
    player: Option<Player>,
    isPlaying: bool,
    currentHymnNumber: Option<int>,
    audioAvailable: bool,
    isLoading: bool,
    error: Option<AudioError>,
    currentTime: real,
    duration: real,
    completionHandler: Option<Handler>,
    nowPlaying: Option<NowPlaying>)

  const Initial: Session := Session(None, false, None, false, false, None, 0.0, 0.0, None, None)

  datatype Env = Env(language: HymnalLanguage, net: Network, storeSucceeds: bool, tempWriteSucceeds: bool)

  /** The session and cache after an operation, and whether it threw. */
  datatype Step = Step(session: Session, cache: CacheDir, outcome: Result<(), AudioError>)

  /** `updateNowPlaying()`: publishes the current hymn, and leaves the entry
      as it was when there is none. */
  function UpdateNowPlaying(s: Session): Session {
    match s.currentHymnNumber
    case Some(n) => s.(nowPlaying := Some(NowPlaying("Hymn " + IntToString(n), "Adventist Hymnal")))
    case None => s
  }

  /** `pause()`. */
  function Pause(s: Session): (r: Session)
    ensures !r.isPlaying
    ensures r.player == s.player && r.currentHymnNumber == s.currentHymnNumber
    ensures r.audioAvailable == s.audioAvailable && r.completionHandler == s.completionHandler
  {
    UpdateNowPlaying(s.(isPlaying := false))
  }

  /** `stop()`: drops the player and forgets the hymn. Loading state, the last
      error, the completion handler and the lock-screen entry are kept; the
      entry is not refreshed because the hymn is already gone when it is
      updated. */
  function Stop(s: Session): (r: Session)
    ensures r.player.None? && !r.isPlaying && r.currentHymnNumber.None? && !r.audioAvailable
    ensures r.currentTime == 0.0 && r.duration == 0.0
    ensures r.isLoading == s.isLoading && r.error == s.error
    ensures r.completionHandler == s.completionHandler && r.nowPlaying == s.nowPlaying
  {
    UpdateNowPlaying(s.(player := None, isPlaying := false, currentHymnNumber := None,
                        audioAvailable := false, currentTime := 0.0, duration := 0.0))
  }

  /** `player.play()` on an existing player. */
  function Resume(s: Session): Session {
    UpdateNowPlaying(s.(isPlaying := true))
  }

  datatype Fetched = Fetched(data: Result<Bytes, AudioError>, cache: CacheDir)

  /** The cache-first read of `loadAndPlay`: a cached recording is used
      without touching the network; otherwise it is downloaded and, if the
      download succeeded, written to the cache, a failed write being ignored. */
  function FetchAudio(cache: CacheDir, n: int, env: Env): (r: Fetched)
    ensures AudioCacheKey(env.language, n) in cache ==>
              r == Fetched(Ok(cache[AudioCacheKey(env.language, n)]), cache)
    ensures AudioCacheKey(env.language, n) !in cache ==>
              var d := DownloadAsset(AudioPath(env.language, n), env.net);
              && (r.data.Ok? <==> d.Ok?)
              && (d.Ok? ==> r.data.value == d.value
                            && r.cache == StoreOrSkip(cache, AudioCacheKey(env.language, n), d.value, env.storeSucceeds))
              && (d.Err? ==> r.data == Err(DownloadError(d.error)) && r.cache == cache)
  {
    var key := AudioCacheKey(env.language, n);
    match Retrieve(cache, key)
    case Some(data) => Fetched(Ok(data), cache)
    case None =>
      match DownloadAsset(AudioPath(env.language, n), env.net)
      case Ok(data) => Fetched(Ok(data), StoreOrSkip(cache, key, data, env.storeSucceeds))
      case Err(e) => Fetched(Err(DownloadError(e)), cache)
  }

  /** The `catch` of `loadAndPlay`. */
  function Fail(s: Session, e: AudioError): Session {
    s.(isLoading := false, error := Some(e), audioAvailable := false)
  }

  /** `loadAndPlay(hymnNumber:)`: stops whatever plays, fetches the recording,
      writes it to a temporary file and plays it. It succeeds exactly when the
      recording was cached or downloaded and the temporary file was written;
      on success the new hymn plays, on failure nothing plays and the error
      is recorded. */
  function LoadAndPlay(s: Session, cache: CacheDir, n: int, env: Env): (r: Step)
    ensures var f := FetchAudio(cache, n, env);
            && r.cache == f.cache
            && (r.outcome.Ok? <==> f.data.Ok? && env.tempWriteSucceeds)
    ensures r.outcome.Ok? ==>
              && r.session.player == Some(Player(n, FetchAudio(cache, n, env).data.value))
              && r.session.isPlaying && r.session.currentHymnNumber == Some(n)
              && r.session.audioAvailable && !r.session.isLoading && r.session.error.None?
              && r.session.nowPlaying == Some(NowPlaying("Hymn " + IntToString(n), "Adventist Hymnal"))
    ensures r.outcome.Err? ==>
              && r.session.player.None? && !r.session.isPlaying && r.session.currentHymnNumber.None?
              && !r.session.audioAvailable && !r.session.isLoading
              && r.session.error == Some(r.outcome.error)
              && r.session.nowPlaying == s.nowPlaying
    ensures r.session.completionHandler == s.completionHandler
  {
    var loading := Stop(s).(isLoading := true, error := None);
    var f := FetchAudio(cache, n, env);
    match f.data
    case Err(e) => Step(Fail(loading, e), f.cache, Err(e))
    case Ok(data) =>
      if !env.tempWriteSucceeds then
        Step(Fail(loading, TempFileWriteFailed), f.cache, Err(TempFileWriteFailed))
      else
        var ready := loading.(player := Some(Player(n, data)), currentHymnNumber := Some(n),
                              audioAvailable := true, isLoading := false);
        Step(Resume(ready), f.cache, Ok(()))
  }

  /** `play()`: resumes an existing player; with no player but a current
      hymn it loads that hymn; otherwise it does nothing. */
  function Play(s: Session, cache: CacheDir, env: Env): (r: Step)
    ensures s.player.Some? ==> r == Step(Resume(s), cache, Ok(())) && r.session.isPlaying
    ensures s.player.None? && s.currentHymnNumber.Some? ==> r == LoadAndPlay(s, cache, s.currentHymnNumber.value, env)
    ensures s.player.None? && s.currentHymnNumber.None? ==> r == Step(s, cache, Ok(()))
  {
    if s.player.Some? then Step(Resume(s), cache, Ok(()))
    else if s.currentHymnNumber.Some? then LoadAndPlay(s, cache, s.currentHymnNumber.value, env)
    else Step(s, cache, Ok(()))
  }

  /** The observer for the end of the item: playback stops, the hymn is
      forgotten and the completion handler is called. The player itself
      stays. Only an item that is playing can reach its end. */
  datatype Completion = Completion(session: Session, fired: Option<Handler>)

  function PlayedToEnd(s: Session): (r: Completion)
    ensures s.player.Some? && s.isPlaying ==>
              && !r.session.isPlaying && r.session.currentHymnNumber.None?
              && r.session.player == s.player && r.fired == s.completionHandler
    ensures !(s.player.Some? && s.isPlaying) ==> r == Completion(s, None)
  {
    if s.player.Some? && s.isPlaying then
      Completion(UpdateNowPlaying(s.(isPlaying := false, currentHymnNumber := None)), s.completionHandler)
    else Completion(s, None)
  }

  function SetCompletionHandler(s: Session, h: Handler): (r: Session)
    ensures r.completionHandler == Some(h)
    ensures r.(completionHandler := s.completionHandler) == s
  {
    s.(completionHandler := Some(h))
  }

  function ClearCompletionHandler(s: Session): (r: Session)
    ensures r.completionHandler.None?
    ensures r.(completionHandler := s.completionHandler) == s
  {
    s.(completionHandler := None)
  }

  /** The handler slot holds one closure: only the latest one set is called
      at the end of a hymn, and none after clearing. */
  lemma CompletionCallsLatestHandler(s: Session, h1: Handler, h2: Handler)
    requires s.player.Some? && s.isPlaying
    ensures PlayedToEnd(SetCompletionHandler(SetCompletionHandler(s, h1), h2)).fired == Some(h2)
    ensures PlayedToEnd(ClearCompletionHandler(SetCompletionHandler(s, h1))).fired.None?
  {
  }

  // ---------------------------------------------------------------------------
  // Notifications and remote commands
  // ---------------------------------------------------------------------------

  datatype InterruptionType = Began | Ended

  datatype RouteChangeReason = OldDeviceUnavailable | OtherReason(raw: nat)

  /** An audio-session notification as far as its user info could be read:
      `None` where the type or reason is missing or not a known raw value;
      `shouldResume` is `None` where the options entry is missing. */
  datatype SessionEvent =
    | Interruption(kind: Option<InterruptionType>, shouldResume: Option<bool>)
    | RouteChange(reason: Option<RouteChangeReason>)

  /** Interruptions pause and resume only when the system says so; a route
      change pauses only when the old output device went away. */
  function HandleSessionEvent(s: Session, cache: CacheDir, env: Env, ev: SessionEvent): (r: Step)
    ensures ev.Interruption? && ev.kind == Some(Began) ==> r == Step(Pause(s), cache, Ok(()))
    ensures ev == Interruption(Some(Ended), Some(true)) ==> r == Play(s, cache, env)
    ensures ev == RouteChange(Some(OldDeviceUnavailable)) ==> r == Step(Pause(s), cache, Ok(()))
    ensures (ev.Interruption? && (ev.kind.None? || (ev.kind == Some(Ended) && ev.shouldResume != Some(true))))
            || (ev.RouteChange? && ev.reason != Some(OldDeviceUnavailable))
            ==> r == Step(s, cache, Ok(()))
  {
    match ev
    case Interruption(Some(Began), _) => Step(Pause(s), cache, Ok(()))
    case Interruption(Some(Ended), Some(true)) => Play(s, cache, env)
    case RouteChange(Some(OldDeviceUnavailable)) => Step(Pause(s), cache, Ok(()))
    case _ => Step(s, cache, Ok(()))
  }

  datatype RemoteCommand = PlayCommand | PauseCommand | StopCommand | TogglePlayPauseCommand

  datatype CommandStatus = Success | CommandFailed

  datatype Remote = Remote(status: CommandStatus, step: Step)

  /** The lock-screen commands. Play is refused when no hymn is current; the
      others always report success. Toggle pauses a playing session and
      otherwise plays when a hymn is current. Errors of the resulting play
      are swallowed but stay recorded in the session. */
  function HandleRemoteCommand(s: Session, cache: CacheDir, env: Env, cmd: RemoteCommand): (r: Remote)
    ensures r.status == CommandFailed <==> cmd == PlayCommand && s.currentHymnNumber.None?
    ensures r.status == CommandFailed ==> r.step == Step(s, cache, Ok(()))
    ensures cmd == PauseCommand || (cmd == TogglePlayPauseCommand && s.isPlaying) ==>
              r.step == Step(Pause(s), cache, Ok(()))
    ensures cmd == StopCommand ==> r.step == Step(Stop(s), cache, Ok(()))
    ensures cmd == TogglePlayPauseCommand && !s.isPlaying && s.currentHymnNumber.None? ==>
              r == Remote(Success, Step(s, cache, Ok(())))
    ensures (cmd == PlayCommand || (cmd == TogglePlayPauseCommand && !s.isPlaying)) && s.currentHymnNumber.Some? ==>
              r.step == Play(s, cache, env)
  {
    match cmd
    case PlayCommand =>
      if s.currentHymnNumber.Some? then Remote(Success, Play(s, cache, env))
      else Remote(CommandFailed, Step(s, cache, Ok(())))
    case PauseCommand => Remote(Success, Step(Pause(s), cache, Ok(())))
    case StopCommand => Remote(Success, Step(Stop(s), cache, Ok(())))
    case TogglePlayPauseCommand =>
      if s.isPlaying then Remote(Success, Step(Pause(s), cache, Ok(())))
      else if s.currentHymnNumber.Some? then Remote(Success, Play(s, cache, env))
      else Remote(Success, Step(s, cache, Ok(())))
  }

  /** The "HymnalServiceDidUpdateHymn" notification's user info. */
  datatype HymnalNotice = HymnalNotice(hymnNumber: Option<int>, oldHymnalType: Option<bool>, newHymnalType: Option<bool>)

  predicate TypeChanged(notice: HymnalNotice) {
    notice.oldHymnalType.Some? && notice.newHymnalType.Some? && notice.oldHymnalType != notice.newHymnalType
  }

  /** Without a hymn number the notice is ignored; a change of hymnal type
      stops playback; anything else loads and plays the hymn. */
  function HandleHymnalNotice(s: Session, cache: CacheDir, env: Env, notice: HymnalNotice): (r: Step)
    ensures notice.hymnNumber.None? ==> r == Step(s, cache, Ok(()))
    ensures notice.hymnNumber.Some? && TypeChanged(notice) ==> r == Step(Stop(s), cache, Ok(()))
    ensures notice.hymnNumber.Some? && !TypeChanged(notice) ==>
              r == LoadAndPlay(s, cache, notice.hymnNumber.value, env)
  {
    match notice.hymnNumber
    case None => Step(s, cache, Ok(()))
    case Some(n) =>
      if TypeChanged(notice) then Step(Stop(s), cache, Ok(()))
      else LoadAndPlay(s, cache, n, env)
  }

  // ---------------------------------------------------------------------------
  // Properties
  // ---------------------------------------------------------------------------

  /** A cached recording plays the same whatever the network does, and the
      cache is not written. */
  lemma CachedLoadIgnoresNetwork(s: Session, cache: CacheDir, n: int, e1: Env, e2: Env)
    requires e1.language == e2.language && e1.tempWriteSucceeds == e2.tempWriteSucceeds
    requires AudioCacheKey(e1.language, n) in cache
    ensures LoadAndPlay(s, cache, n, e1) == LoadAndPlay(s, cache, n, e2)
    ensures LoadAndPlay(s, cache, n, e1).cache == cache
  {
  }

  /** A successful download is cached under the edition's key when the write
      succeeds, so the next load of the same hymn reads the cache. */
  lemma DownloadedAudioIsCached(s: Session, cache: CacheDir, n: int, env: Env)
    ensures AudioCacheKey(env.language, n) !in cache && env.storeSucceeds &&
            DownloadAsset(AudioPath(env.language, n), env.net).Ok? ==>
              Retrieve(LoadAndPlay(s, cache, n, env).cache, AudioCacheKey(env.language, n)) ==
              Some(DownloadAsset(AudioPath(env.language, n), env.net).value)
  {
  }

  /** Loading stops the previous playback first: the result does not depend
      on what was playing, only on the completion handler and the lock-screen
      entry carried over. */
  lemma LoadForgetsPreviousSession(s1: Session, s2: Session, cache: CacheDir, n: int, env: Env)
    requires s1.completionHandler == s2.completionHandler && s1.nowPlaying == s2.nowPlaying
    ensures LoadAndPlay(s1, cache, n, env) == LoadAndPlay(s2, cache, n, env)
  {
  }

  /** Stopping twice is stopping once. */
  lemma StopIdempotent(s: Session)
    ensures Stop(Stop(s)) == Stop(s)
  {
  }

  /** The session states the service can reach between operations: the
      player exists exactly when audio is available, only an existing player
      plays, a current hymn is the one the player holds, and nothing is
      loading. */
  predicate Consistent(s: Session) {
    && (s.audioAvailable <==> s.player.Some?)
    && (s.isPlaying ==> s.player.Some?)
    && (s.currentHymnNumber.Some? ==> s.player.Some? && s.player.value.hymn == s.currentHymnNumber.value)
    && !s.isLoading
  }

  /** Loading, playing, pausing, stopping and finishing keep the session
      consistent, starting from the initial one. */
  lemma ConsistentIsInvariant(s: Session, cache: CacheDir, n: int, env: Env, h: Handler)
    requires Consistent(s)
    ensures Consistent(Initial)
    ensures Consistent(Pause(s)) && Consistent(Stop(s))
    ensures Consistent(LoadAndPlay(s, cache, n, env).session)
    ensures Consistent(Play(s, cache, env).session)
    ensures Consistent(PlayedToEnd(s).session)
    ensures Consistent(SetCompletionHandler(s, h)) && Consistent(ClearCompletionHandler(s))
  {
  }

  /** So do the notification and remote-command handlers, which only call
      those operations. */
  lemma HandlersKeepConsistent(s: Session, cache: CacheDir, env: Env,
                               ev: SessionEvent, cmd: RemoteCommand, notice: HymnalNotice)
    requires Consistent(s)
    ensures Consistent(HandleSessionEvent(s, cache, env, ev).session)
    ensures Consistent(HandleRemoteCommand(s, cache, env, cmd).step.session)
    ensures Consistent(HandleHymnalNotice(s, cache, env, notice).session)
  {
    ConsistentIsInvariant(s, cache, if notice.hymnNumber.Some? then notice.hymnNumber.value else 0, env, Handler(0));
  }

  /** In a consistent session `play()` never reloads: a current hymn always
      has its player, so the branch that loads it is not taken, the cache
      and network are not used and nothing is thrown. */
  lemma PlayNeverReloads(s: Session, cache: CacheDir, env: Env)
    requires Consistent(s)
    ensures Play(s, cache, env).cache == cache
    ensures Play(s, cache, env).outcome.Ok?
    ensures Play(s, cache, env).session == if s.player.Some? then Resume(s) else s
  {
  }

  /** The lock-screen entry outlives `stop()`: it still names the hymn that
      was playing. */
  lemma NowPlayingSurvivesStop(s: Session)
    ensures Stop(s).nowPlaying == s.nowPlaying
    ensures PlayedToEnd(s).session.nowPlaying == s.nowPlaying
  {
  }
}
