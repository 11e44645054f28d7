/**
 * The speech engine: a whitelist of voices with a default, an audio directory
 * that doubles as a cache keyed by hashed request parameters, a cleanup of old
 * audio files, and a circuit breaker in front of the local EasyVoice service
 * that falls back to Edge-TTS. The services' replies, the clock and the hash
 * are inputs.
 */
module TtsEngine {
  import opened Wrappers
  import opened Text

  type Bytes = seq<bv8>

  /** The voice ids the engine accepts, in the order it lists them. */
  const Voices: seq<string> := [
    "zh-CN-XiaoxiaoNeural", "zh-CN-XiaoyiNeural", "zh-CN-YunxiaNeural",
    "zh-CN-YunxiNeural", "zh-CN-YunyangNeural",
    "zh-CN-liaoning-XiaobeiNeural", "zh-CN-shaanxi-XiaoniNeural", "zh-CN-sichuan-YunxiNeural",
    "zh-HK-HiuGaaiNeural", "zh-HK-HiuMaanNeural", "zh-HK-WanLungNeural",
    "zh-TW-HsiaoChenNeural", "zh-TW-HsiaoYuNeural", "zh-TW-YunJheNeural"]

  const DefaultVoice: string := "zh-CN-XiaoxiaoNeural"
  const MaxFailures: nat := 2
  const CooldownSeconds: real := 60.0
  const BreakerOpenMessage: string := "Circuit Breaker Open"
  const DefaultMaxAgeHours: int := 24
  const AudioSuffix: string := ".mp3"

  /** A requested voice outside the whitelist falls back to the default. */
  function ResolveVoice(v: string): (r: string)
    ensures r in Voices
    ensures v in Voices ==> r == v
    ensures v !in Voices ==> r == DefaultVoice
  {
    if v in Voices then v else DefaultVoice
  }

  /** Resolving an already resolved voice changes nothing, so the second check on the EasyVoice path is a no-op. */
  lemma ResolveVoiceIdempotent(v: string)
    ensures ResolveVoice(ResolveVoice(v)) == ResolveVoice(v)
    ensures |Voices| == 14 && Distinct(Voices) && DefaultVoice == Voices[0]
  {
  }

  // ---------------------------------------------------------------------------
  // The circuit breaker

  datatype Breaker = Breaker(failures: nat, open: bool, openedAt: real)

  const InitialBreaker: Breaker := Breaker(0, false, 0.0)

  /** The breaker is open exactly when the failure count has reached the threshold. */
  predicate Consistent(b: Breaker) { b.open <==> b.failures >= MaxFailures }

  datatype Gated = Gated(attempt: bool, breaker: Breaker)

  /**
   * The check before an EasyVoice attempt: an open breaker within its cooldown
   * skips the attempt; past the cooldown it closes and the count restarts at 0.
   */
  function Gate(b: Breaker, now: real): Gated {
    if !b.open then Gated(true, b)
    else if now - b.openedAt < CooldownSeconds then Gated(false, b)
    else Gated(true, b.(open := false, failures := 0))
  }

  datatype Attempt = Succeeded | Failed(message: string, at: real)

  /** After an attempt: success clears the count; a failure counts, and opens the breaker at the threshold. */
  function Settle(b: Breaker, a: Attempt): Breaker {
    match a
    case Succeeded => b.(failures := 0)
    case Failed(m, t) =>
      if m == BreakerOpenMessage then b
      else if b.failures + 1 >= MaxFailures then Breaker(b.failures + 1, true, t)
      else b.(failures := b.failures + 1)
  }

  /** One `stream_synthesize` call's effect on the breaker. */
  function Step(b: Breaker, now: real, a: Attempt): Breaker {
    var g := Gate(b, now);
    if g.attempt then Settle(g.breaker, a) else g.breaker
  }

  /** The breaker starts closed with no failures, and every call keeps it consistent. */
  lemma StepKeepsConsistent(b: Breaker, now: real, a: Attempt)
    requires Consistent(b)
    ensures Consistent(InitialBreaker)
    ensures Consistent(Step(b, now, a))
  {
  }

  /** Within the cooldown an open breaker skips EasyVoice and changes nothing, whatever the attempt would have been. */
  lemma OpenBreakerSkips(b: Breaker, now: real, a: Attempt)
    requires b.open && now - b.openedAt < CooldownSeconds
    ensures !Gate(b, now).attempt
    ensures Step(b, now, a) == b
  {
  }

  /**
   * Attempted calls: a closed breaker, or an open one past its cooldown (which
   * first closes with the count at 0). Success leaves the breaker closed with no
   * failures; a counted failure adds one and opens the breaker, stamped with the
   * failure time, when the count reaches 2.
   */
  lemma AttemptOutcomes(b: Breaker, now: real, a: Attempt)
    requires Consistent(b)
    requires !b.open || now - b.openedAt >= CooldownSeconds
    ensures Gate(b, now).attempt
    ensures b.open ==> Gate(b, now).breaker.failures == 0 && !Gate(b, now).breaker.open
    ensures a.Succeeded? ==> Step(b, now, a).failures == 0 && !Step(b, now, a).open
    ensures a.Failed? && a.message != BreakerOpenMessage ==>
            var before := Gate(b, now).breaker.failures;
            Step(b, now, a).failures == before + 1
            && (Step(b, now, a).open <==> before + 1 >= MaxFailures)
            && (Step(b, now, a).open ==> Step(b, now, a).openedAt == a.at)
  {
  }

  /** Two counted failures in a row from a fresh breaker open it at the second failure's time. */
  lemma TwoFailuresOpen(t1: real, m1: string, f1: real, t2: real, m2: string, f2: real)
    requires m1 != BreakerOpenMessage && m2 != BreakerOpenMessage
    ensures var b1 := Step(InitialBreaker, t1, Failed(m1, f1));
            !b1.open && b1.failures == 1
            && Step(b1, t2, Failed(m2, f2)) == Breaker(2, true, f2)
  {
  }

  // ---------------------------------------------------------------------------
  // The audio directory

  datatype AudioFile = AudioFile(mtime: real, content: Bytes)

  type AudioDir = map<string, AudioFile>

  /** `tts_<md5(text_voice_rate_volume)[:12]>.mp3`, with the truncated digest given as `hash`. */
  function EdgeName(hash: string -> string, text: string, voice: string, rate: string, volume: string): string {
    "tts_" + hash(text + "_" + voice + "_" + rate + "_" + volume) + AudioSuffix
  }

  /** `tts_ev_<md5(ev_text_voice_rate_volume)[:12]>.mp3` */
  function EasyVoiceName(hash: string -> string, text: string, voice: string, rate: string, volume: string): string {
    "tts_ev_" + hash("ev_" + text + "_" + voice + "_" + rate + "_" + volume) + AudioSuffix
  }

  /** What the EasyVoice HTTP call yields: no connection, or a status with its body. */
  datatype EvResponse = EvUnreachable(message: string) | EvReply(status: int, text: string, audio: Bytes)

  datatype EdgeOutcome = EdgeAudio(audio: Bytes) | EdgeError(message: string)

  datatype Written = Written(result: Result<string, string>, dir: AudioDir)

  /**
   * `_synthesize_easyvoice` after the voice check: a cached file is returned as
   * is; otherwise a status other than 200 or an empty body raises, and audio is
   * written to the file.
   */
  function EasyVoiceCall(dir: AudioDir, name: string, resp: EvResponse, now: real): Written {
    if name in dir then Written(Ok(name), dir)
    else match resp
      case EvUnreachable(m) => Written(Err(m), dir)
      case EvReply(status, text, audio) =>
        if status != 200 then Written(Err("EasyVoice API Error: " + IntToString(status) + " - " + text), dir)
        else if audio == [] then Written(Err("EasyVoice 返回空数据"), dir)
        else Written(Ok(name), dir[name := AudioFile(now, audio)])
  }

  /** A request whose file is already in the directory is answered from it, whatever the service would do. */
  lemma CacheHit(dir: AudioDir, name: string, resp: EvResponse, now: real)
    requires name in dir
    ensures EasyVoiceCall(dir, name, resp, now) == Written(Ok(name), dir)
  {
  }

  /** A successful call leaves its file in the directory, and touches no other file. */
  lemma EasyVoiceCallSpec(dir: AudioDir, name: string, resp: EvResponse, now: real)
    ensures var w := EasyVoiceCall(dir, name, resp, now);
            (w.result.Ok? ==> w.result.value == name && name in w.dir)
            && (w.result.Err? ==> w.dir == dir)
            && (forall k :: k != name ==> (k in w.dir <==> k in dir) && (k in dir ==> w.dir[k] == dir[k]))
            && (name !in dir && w.result.Ok? ==> w.dir[name].content != [] && w.dir[name].mtime == now)
  {
  }

  /** Files the cleanup removes: `.mp3` files strictly older than the limit whose stat and unlink succeed. */
  function Expired(dir: AudioDir, now: real, maxAgeHours: int, failing: set<string>): set<string> {
    set k | k in dir && EndsWith(k, AudioSuffix) && now - dir[k].mtime > (maxAgeHours * 3600) as real
                     && k !in failing
  }

  predicate ExpiresAt(dir: AudioDir, k: string, now: real, maxAgeHours: int, failing: set<string>)
    requires k in dir
  {
    EndsWith(k, AudioSuffix) && now - dir[k].mtime > (maxAgeHours * 3600) as real && k !in failing
  }

  /** The expired files among a prefix of the listing. */
  function ExpiredAmong(dir: AudioDir, order: seq<string>, now: real, maxAgeHours: int, failing: set<string>): set<string>
    requires forall k :: k in order ==> k in dir
  {
    set k | k in order && ExpiresAt(dir, k, now, maxAgeHours, failing)
  }

  /** Visiting one more listed file adds it to the expired ones exactly when it expires. */
  lemma ExpiredAmongStep(dir: AudioDir, order: seq<string>, i: nat, now: real, maxAgeHours: int, failing: set<string>)
    requires forall k :: k in order ==> k in dir
    requires Distinct(order) && i < |order|
    ensures forall k :: k in order[..i + 1] ==> k in dir
    ensures order[i] !in ExpiredAmong(dir, order[..i], now, maxAgeHours, failing)
    ensures ExpiredAmong(dir, order[..i + 1], now, maxAgeHours, failing)
            == ExpiredAmong(dir, order[..i], now, maxAgeHours, failing)
               + (if ExpiresAt(dir, order[i], now, maxAgeHours, failing) then {order[i]} else {})
  {
    assert forall k :: k in order[..i + 1] ==> k in order;
    assert forall k :: k in order[..i] ==> k in order;
    assert order[i] !in order[..i] by {
      forall j | 0 <= j < i ensures order[..i][j] != order[i] {
        assert order[..i][j] == order[j];
      }
    }
    assert order[..i + 1] == order[..i] + [order[i]];
  }

  /** Once the listing is exhausted, the expired files among it are all the expired files. */
  lemma ExpiredAmongAll(dir: AudioDir, order: seq<string>, now: real, maxAgeHours: int, failing: set<string>)
    requires forall k :: k in order ==> k in dir && EndsWith(k, AudioSuffix)
    requires forall k :: k in dir && EndsWith(k, AudioSuffix) ==> k in order
    ensures ExpiredAmong(dir, order, now, maxAgeHours, failing) == Expired(dir, now, maxAgeHours, failing)
  {
  }

  /** The stream's audio and where it came from. */
  datatype Audio = Audio(fromEasyVoice: bool, voice: string, data: Bytes)

  /** How an EasyVoice attempt ends for the breaker: a non-empty file is a success. */
  function AttemptOf(dir: AudioDir, name: string, resp: EvResponse, now: real, failTime: real): Attempt {
    var w := EasyVoiceCall(dir, name, resp, now);
    match w.result
    case Err(m) => Failed(m, failTime)
    case Ok(_) => if name in w.dir && w.dir[name].content != [] then Succeeded else Failed("EasyVoice 文件为空", failTime)
  }

  datatype StreamResult = StreamResult(breaker: Breaker, dir: AudioDir, result: Result<Audio, string>)

  /** The Edge-TTS fallback with the resolved voice. */
  function EdgeFallback(voiceModel: string, edge: EdgeOutcome): Result<Audio, string> {
    match edge
    case EdgeAudio(data) => Ok(Audio(false, ResolveVoice(voiceModel), data))
    case EdgeError(m) => Err(m)
  }

  /** One `stream_synthesize` call: the breaker after it, the directory after it, and the audio. */
  function Stream(b: Breaker, dir: AudioDir, voiceModel: string, name: string, resp: EvResponse,
                  now: real, failTime: real, edge: EdgeOutcome): StreamResult
  {
    var g := Gate(b, now);
    if !g.attempt then StreamResult(g.breaker, dir, EdgeFallback(voiceModel, edge))
    else
      var w := EasyVoiceCall(dir, name, resp, now);
      var a := AttemptOf(dir, name, resp, now, failTime);
      StreamResult(Settle(g.breaker, a), w.dir,
                   if a.Succeeded? then Ok(Audio(true, ResolveVoice(voiceModel), w.dir[name].content))
                   else EdgeFallback(voiceModel, edge))
  }

  /**
   * The breaker after a streamed call is the breaker step of its attempt, and the
   * EasyVoice audio is returned exactly when the attempt succeeded.
   */
  lemma StreamFollowsBreaker(b: Breaker, dir: AudioDir, voiceModel: string, name: string, resp: EvResponse,
                             now: real, failTime: real, edge: EdgeOutcome)
    ensures var st := Stream(b, dir, voiceModel, name, resp, now, failTime, edge);
            var a := AttemptOf(dir, name, resp, now, failTime);
            st.breaker == Step(b, now, a)
            && (st.result.Ok? && st.result.value.fromEasyVoice <==> Gate(b, now).attempt && a.Succeeded?)
            && (!Gate(b, now).attempt ==> st.dir == dir && st.result == EdgeFallback(voiceModel, edge))
  {
  }

  /** Removing one more file from what is left is removing it along with the others. */
  lemma RemoveOneMore(dir: AudioDir, gone: set<string>, name: string)
    ensures (dir - gone) - {name} == dir - (gone + {name})
  {
  }

  class TtsEngine {
    var failureCount: nat
    var circuitOpen: bool
    var circuitOpenTime: real
    var audio: AudioDir

    function State(): Breaker
      reads this
    {
      Breaker(failureCount, circuitOpen, circuitOpenTime)
    }

    /** Construction cleans the directory of files older than 24 hours, then sets the breaker closed and empty. */
    constructor(dir: AudioDir, now: real, order: seq<string>, failing: set<string>)
      requires forall k :: k in order ==> k in dir && EndsWith(k, AudioSuffix)
      requires forall k :: k in dir && EndsWith(k, AudioSuffix) ==> k in order
      requires Distinct(order)
      ensures State() == InitialBreaker
      ensures audio == dir - Expired(dir, now, DefaultMaxAgeHours, failing)
    {
      audio := dir;
      new;
      var _ := CleanupOldAudioFiles(now, DefaultMaxAgeHours, order, failing);
      failureCount := 0;
      circuitOpen := false;
      circuitOpenTime := 0.0;
    }

    /** `cleanup_old_audio_files` over the directory listing `order` of the `.mp3` files. */
    method CleanupOldAudioFiles(now: real, maxAgeHours: int, order: seq<string>, failing: set<string>)
      returns (deletedCount: nat)
      requires forall k :: k in order ==> k in audio && EndsWith(k, AudioSuffix)
      requires forall k :: k in audio && EndsWith(k, AudioSuffix) ==> k in order
      requires Distinct(order)
      modifies this
      ensures audio == old(audio) - Expired(old(audio), now, maxAgeHours, failing)
      ensures deletedCount == |Expired(old(audio), now, maxAgeHours, failing)|
      ensures State() == old(State())
    {
      ghost var dir := audio;
      ghost var gone: set<string> := {};
      deletedCount := 0;
      var i := 0;
      while i < |order|
        invariant 0 <= i <= |order|
        invariant forall k :: k in order ==> k in dir && EndsWith(k, AudioSuffix)
        invariant State() == old(State())
        invariant gone == ExpiredAmong(dir, order[..i], now, maxAgeHours, failing)
        invariant audio == dir - gone
        invariant deletedCount == |gone|
      {
        var name := order[i];
        ExpiredAmongStep(dir, order, i, now, maxAgeHours, failing);
        var age := now - audio[name].mtime;
        if age > (maxAgeHours * 3600) as real && name !in failing {
          RemoveOneMore(dir, gone, name);
          audio := audio - {name};
          gone := gone + {name};
          deletedCount := deletedCount + 1;
        }
        i := i + 1;
      }
      assert order[..i] == order;
      ExpiredAmongAll(dir, order, now, maxAgeHours, failing);
    }

    method EasyVoice(text: string, voiceModel: string, rate: string, volume: string,
                     hash: string -> string, now: real, resp: EvResponse) returns (r: Result<string, string>)
      modifies this
      ensures var w := EasyVoiceCall(old(audio), EasyVoiceName(hash, text, ResolveVoice(voiceModel), rate, volume), resp, now);
              r == w.result && audio == w.dir
      ensures State() == old(State())
    {
      var voice := ResolveVoice(voiceModel);
      var name := EasyVoiceName(hash, text, voice, rate, volume);
      if name in audio {
        return Ok(name);
      }
      match resp {
        case EvUnreachable(m) =>
          r := Err(m);
        case EvReply(status, body, data) =>
          if status != 200 {
            r := Err("EasyVoice API Error: " + IntToString(status) + " - " + body);
          } else if data == [] {
            r := Err("EasyVoice 返回空数据");
          } else {
            audio := audio[name := AudioFile(now, data)];
            r := Ok(name);
          }
      }
    }

    /**
     * `synthesize`: EasyVoice first; on any failure the Edge-TTS file for the
     * resolved voice, from the cache when present, else written from Edge's audio.
     */
    method Synthesize(text: string, voiceModel: string, rate: string, volume: string,
                      hash: string -> string, now: real, resp: EvResponse, edge: EdgeOutcome)
      returns (r: Result<string, string>)
      modifies this
      ensures State() == old(State())
      ensures var w := EasyVoiceCall(old(audio), EasyVoiceName(hash, text, ResolveVoice(voiceModel), rate, volume), resp, now);
              var name := EdgeName(hash, text, ResolveVoice(voiceModel), rate, volume);
              if w.result.Ok? then r == w.result && audio == w.dir
              else if name in old(audio) then r == Ok(name) && audio == old(audio)
              else match edge
                case EdgeAudio(data) => r == Ok(name) && audio == old(audio)[name := AudioFile(now, data)]
                case EdgeError(m) => r == Err(m) && audio == old(audio)
    {
      var ev := EasyVoice(text, voiceModel, rate, volume, hash, now, resp);
      if ev.Ok? {
        return ev;
      }
      var voice := ResolveVoice(voiceModel);
      var name := EdgeName(hash, text, voice, rate, volume);
      if name in audio {
        return Ok(name);
      }
      match edge {
        case EdgeAudio(data) =>
          audio := audio[name := AudioFile(now, data)];
          r := Ok(name);
        case EdgeError(m) =>
          r := Err(m);
      }
    }

    /**
     * The breaker check that opens `stream_synthesize`: within the cooldown the
     * attempt is skipped; past it the breaker closes and the count restarts.
     */
    method CheckBreaker(now: real) returns (attempted: bool)
      modifies this
      ensures attempted == Gate(old(State()), now).attempt
      ensures State() == Gate(old(State()), now).breaker && audio == old(audio)
    {
      attempted := true;
      if circuitOpen {
        var elapsed := now - circuitOpenTime;
        if elapsed < CooldownSeconds {
          attempted := false;
        } else {
          circuitOpen := false;
          failureCount := 0;
        }
      }
    }

    /**
     * The failure handler of `stream_synthesize`: a failure other than the breaker's
     * own counts, and reaching the threshold opens the breaker at `failTime`.
     */
    method RecordFailure(failure: string, failTime: real)
      modifies this
      ensures State() == Settle(old(State()), Failed(failure, failTime)) && audio == old(audio)
    {
      if failure != BreakerOpenMessage {
        failureCount := failureCount + 1;
        if failureCount >= MaxFailures {
          circuitOpen := true;
          circuitOpenTime := failTime;
        }
      }
    }

    /**
     * `stream_synthesize`: the breaker decides whether EasyVoice is tried; its
     * file must be non-empty to count as a success; any other outcome falls back
     * to Edge-TTS with the resolved voice. `failTime` is the clock at the failure.
     */
    method StreamSynthesize(text: string, voiceModel: string, rate: string, volume: string,
                            hash: string -> string, now: real, resp: EvResponse, failTime: real, edge: EdgeOutcome)
      returns (r: Result<Audio, string>)
      modifies this
      ensures StreamResult(State(), audio, r)
              == Stream(old(State()), old(audio), voiceModel,
                        EasyVoiceName(hash, text, ResolveVoice(voiceModel), rate, volume), resp, now, failTime, edge)
    {
      ghost var dir0 := audio;
      ghost var name := EasyVoiceName(hash, text, ResolveVoice(voiceModel), rate, volume);
      var attempted := CheckBreaker(now);
      if attempted {
        var safeVoice := ResolveVoice(voiceModel);
        ResolveVoiceIdempotent(voiceModel);
        var ev := EasyVoice(text, safeVoice, rate, volume, hash, now, resp);
        EasyVoiceCallSpec(dir0, name, resp, now);
        var failure: string;
        if ev.Err? {
          failure := ev.error;
        } else if audio[ev.value].content == [] {
          failure := "EasyVoice 文件为空";
        } else {
          failureCount := 0;
          r := Ok(Audio(true, safeVoice, audio[ev.value].content));
          return;
        }
        assert AttemptOf(dir0, name, resp, now, failTime) == Failed(failure, failTime);
        RecordFailure(failure, failTime);
      }
      r := EdgeFallback(voiceModel, edge);
    }
  }

  /** `get_tts_engine`: the process-wide engine, created on first use. */
  class TtsRegistry {
    var engine: TtsEngine?

    constructor()
      ensures engine == null
    {
      engine := null;
    }

    method GetTtsEngine(dir: AudioDir, now: real, order: seq<string>, failing: set<string>) returns (e: TtsEngine)
      requires forall k :: k in order ==> k in dir && EndsWith(k, AudioSuffix)
      requires forall k :: k in dir && EndsWith(k, AudioSuffix) ==> k in order
      requires Distinct(order)
      modifies this
      ensures engine == e
      ensures old(engine) != null ==> e == old(engine)
      ensures old(engine) == null ==> fresh(e) && e.State() == InitialBreaker
    {
      if engine == null {
        engine := new TtsEngine(dir, now, order, failing);
      }
      e := engine;
    }
  }

  /** Every call after the first returns the engine the first call created. */
  method GetTwice(dir: AudioDir, now: real, order: seq<string>, failing: set<string>)
    returns (first: TtsEngine, second: TtsEngine)
    requires forall k :: k in order ==> k in dir && EndsWith(k, AudioSuffix)
    requires forall k :: k in dir && EndsWith(k, AudioSuffix) ==> k in order
    requires Distinct(order)
    ensures first == second
  {
    var registry := new TtsRegistry();
    first := registry.GetTtsEngine(dir, now, order, failing);
    second := registry.GetTtsEngine(dir, now, order, failing);
  }
}
