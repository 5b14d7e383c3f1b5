/** The CLI's dial transport: built on the first dial, cached, re-confirmed against the certificate
    bytes on disk before every use, replaceable by an injected one, and switchable for good to
    presenting no certificate. Fingerprints are the bytes themselves. */
module Transport {
  import opened ByteArrays
  import opened Wrappers

  datatype Error = NoAnchor | NotHttps | CertificateExpired | CertificateUnreadable | ContextFailed | CloseFailed

  /** What a client is constructed with: the trust anchor found, the server URL, and whether the admin
      certificate pair is there to present. */
  datatype Config = Config(anchor: Option<string>, url: string, hasPair: bool)

  predicate IsHttps(url: string) { "https://" <= url }

  predicate Anchored(cfg: Config) { cfg.anchor.Some? && cfg.anchor.value != "" }

  /** Where a transport comes from. A built one carries the certificate bytes its TLS context loaded. */
  datatype Origin =
    | Injected
    | Built(anchor: string, url: string, presented: Option<Bytes>)

  datatype Client = Client(
    http: Option<(nat, Origin)>, fingerprint: Option<Bytes>, sessionOnly: bool,
    created: nat, closed: seq<nat>
  )

  /** How the world answers one dial. The certificate file may be read three times: to confirm the
      staged transport, to fingerprint a new one, and to load it; None is an unreadable file. */
  datatype World = World(
    confirm: Option<Bytes>, fingerprint: Option<Bytes>, load: Option<Bytes>,
    expired: bool, contextFails: bool, closeFails: bool
  ) {
    /** The file is not rewritten during the dial. */
    predicate Quiet() { confirm == fingerprint == load }
  }

  type Answer = Result<(nat, Origin), Error>

  function BuildTransport(cfg: Config, c: Client, w: World): (Client, Answer) {
    if !Anchored(cfg) then (c, Err(NoAnchor))
    else if !IsHttps(cfg.url) then (c, Err(NotHttps))
    else
      var presents := cfg.hasPair && !c.sessionOnly;
      if presents && w.expired then (c, Err(CertificateExpired))
      else if presents && w.fingerprint.None? then (c, Err(CertificateUnreadable))
      else
        var c1 := c.(fingerprint := if presents then w.fingerprint else None);
        if w.contextFails || (presents && w.load.None?) then (c1, Err(ContextFailed))
        else
          var presented := if presents then w.load else None;
          var t := (c.created, Built(cfg.anchor.value, cfg.url, presented));
          (c1.(http := Some(t), created := c.created + 1), Ok(t))
  }

  /** One use of the `_http` property. */
  function Dialed(cfg: Config, c: Client, w: World): (Client, Answer) {
    match c.http
    case None => BuildTransport(cfg, c, w)
    case Some(staged) =>
      if c.fingerprint.None? then (c, Ok(staged))
      else if w.confirm.None? then (c, Err(CertificateUnreadable))
      else if w.confirm == c.fingerprint then (c, Ok(staged))
      else
        var c1 := c.(http := None, fingerprint := None, closed := c.closed + [staged.0]);
        if w.closeFails then (c1, Err(CloseFailed)) else BuildTransport(cfg, c1, w)
  }

  /** An injected transport has any identity: a new one, or one that was staged before. */
  datatype Operation = Dial(w: World) | Inject(stub: Option<nat>) | UseSessionOnly

  function Next(cfg: Config, c: Client, op: Operation): Client {
    match op
    case Dial(w) => Dialed(cfg, c, w).0
    case Inject(stub) =>
      (
        match stub
        case None => c.(http := None, fingerprint := None)
        case Some(id) =>
          c.(http := Some((id, Injected)), fingerprint := None, created := if id < c.created then c.created else id + 1)
      )
    case UseSessionOnly => c.(sessionOnly := true, http := None)
  }

  const NEW_CLIENT := Client(None, None, false, 0, [])

  function After(cfg: Config, ops: seq<Operation>): Client {
    if ops == [] then NEW_CLIENT else Next(cfg, After(cfg, ops[..|ops| - 1]), ops[|ops| - 1])
  }

  // ----- what holds over every run

  ghost predicate Consistent(cfg: Config, c: Client) {
    // the staged transport
    && (c.http.Some? ==>
          match c.http.value.1
          case Injected => c.fingerprint.None?
          case Built(anchor, url, presented) =>
            && Anchored(cfg) && cfg.anchor == Some(anchor) && cfg.url == url && IsHttps(url)
            && (presented.None? <==> c.fingerprint.None?)
            && (presented.Some? ==> cfg.hasPair && !c.sessionOnly)
            && c.http.value.0 !in c.closed)
    // every transport is closed at most once; one that is built here is new, and staged only unclosed
    && (c.http.Some? ==> c.http.value.0 < c.created)
    && (forall i | 0 <= i < |c.closed| :: c.closed[i] < c.created)
    && (forall i, j | 0 <= i < j < |c.closed| :: c.closed[i] != c.closed[j])
  }

  lemma BuildConsistent(cfg: Config, c: Client, w: World)
    requires Consistent(cfg, c) && c.http.None?
    ensures Consistent(cfg, BuildTransport(cfg, c, w).0)
  {}

  lemma NextConsistent(cfg: Config, c: Client, op: Operation)
    requires Consistent(cfg, c)
    ensures Consistent(cfg, Next(cfg, c, op))
  {
    if op.Dial? && c.http.Some? && c.fingerprint.Some? && op.w.confirm.Some? && op.w.confirm != c.fingerprint {
      var c1 := c.(http := None, fingerprint := None, closed := c.closed + [c.http.value.0]);
      assert Consistent(cfg, c1);
      BuildConsistent(cfg, c1, op.w);
    } else if op.Dial? && c.http.None? {
      BuildConsistent(cfg, c, op.w);
    }
  }

  /** Over every run of dials, injections, session-only switches and certificate rewrites. */
  lemma {:induction false} RunConsistent(cfg: Config, ops: seq<Operation>)
    ensures Consistent(cfg, After(cfg, ops))
  {
    if ops != [] {
      RunConsistent(cfg, ops[..|ops| - 1]);
      NextConsistent(cfg, After(cfg, ops[..|ops| - 1]), ops[|ops| - 1]);
    }
  }

  lemma AfterLast(cfg: Config, ops: seq<Operation>)
    requires ops != []
    ensures After(cfg, ops) == Next(cfg, After(cfg, ops[..|ops| - 1]), ops[|ops| - 1])
  {
    hide Next;
  }

  /** The dial of a run that built the transport staged at its end, if the client built it itself. */
  function Builder(cfg: Config, ops: seq<Operation>): Option<World> {
    if ops == [] then None
    else
      var front, op := ops[..|ops| - 1], ops[|ops| - 1];
      if !op.Dial? then None
      else if After(cfg, ops).http == After(cfg, front).http then Builder(cfg, front)
      else Some(op.w)
  }

  /** What a dial that stages something new has read. */
  lemma BuiltNow(cfg: Config, c: Client, w: World)
    requires Consistent(cfg, c) && Dialed(cfg, c, w).0.http.Some? && Dialed(cfg, c, w).0.http != c.http
    ensures var c' := Dialed(cfg, c, w).0;
            && c'.http.value.1.Built?
            && (c'.http.value.1.presented.Some? ==> c'.fingerprint == w.fingerprint && c'.http.value.1.presented == w.load)
  {}

  /** Over every run: the fingerprint and the presented bytes of a staged transport are the two reads
      of the dial that built it, however long ago that was. */
  lemma {:induction false} BuilderReads(cfg: Config, ops: seq<Operation>)
    requires After(cfg, ops).http.Some? && After(cfg, ops).http.value.1.Built?
    requires After(cfg, ops).http.value.1.presented.Some?
    ensures var (c, b) := (After(cfg, ops), Builder(cfg, ops));
            && b.Some? && Dial(b.value) in ops
            && c.fingerprint == b.value.fingerprint && c.http.value.1.presented == b.value.load
  {
    if ops != [] {
      var front, op := ops[..|ops| - 1], ops[|ops| - 1];
      RunConsistent(cfg, front);
      if op.Dial? && After(cfg, ops).http != After(cfg, front).http {
        BuiltNow(cfg, After(cfg, front), op.w);
      } else if op.Dial? {
        KeptNow(cfg, After(cfg, front), op.w);
        BuilderReads(cfg, front);
        assert forall d | d in front :: d in ops;
      }
    }
  }

  lemma KeptNow(cfg: Config, c: Client, w: World)
    requires Consistent(cfg, c) && Dialed(cfg, c, w).0.http.Some? && Dialed(cfg, c, w).0.http == c.http
    ensures Dialed(cfg, c, w).0 == c
  {}

  /** What a dial at the end of any run hands out, if the client built it itself, is staged, was made
      with the anchor and an https URL, and presents nothing or what the dial that built it loaded;
      and the bytes that dial fingerprinted are the ones this dial has just seen on disk. */
  lemma HandedOut(cfg: Config, ops: seq<Operation>, w: World)
    requires Dialed(cfg, After(cfg, ops), w).1.Ok? && Dialed(cfg, After(cfg, ops), w).1.value.1.Built?
    ensures var (c, answer) := Dialed(cfg, After(cfg, ops), w);
            var t, b := answer.value.1, Builder(cfg, ops + [Dial(w)]);
            && c.http == Some(answer.value)
            && Anchored(cfg) && t.anchor == cfg.anchor.value && t.url == cfg.url && IsHttps(cfg.url)
            && (t.presented.Some? ==>
                  && !c.sessionOnly && b.Some? && t.presented == b.value.load
                  && (b.value.fingerprint == w.confirm || b.value == w))
  {
    hide After, Builder, Consistent, Dialed;
    var all := ops + [Dial(w)];
    assert all[..|ops|] == ops && all[|ops|] == Dial(w);
    AfterLast(cfg, all);
    BuilderLast(cfg, all);
    RunConsistent(cfg, ops);
    RunConsistent(cfg, all);
    DialStages(cfg, After(cfg, ops), w);
    if Dialed(cfg, After(cfg, ops), w).1.value.1.presented.Some? {
      BuilderReads(cfg, all);
    }
  }

  lemma BuilderLast(cfg: Config, ops: seq<Operation>)
    requires ops != [] && ops[|ops| - 1].Dial?
    ensures After(cfg, ops).http != After(cfg, ops[..|ops| - 1]).http ==> Builder(cfg, ops) == Some(ops[|ops| - 1].w)
  {
    hide After;
  }

  /** One dial that hands out a transport of its own. */
  lemma DialStages(cfg: Config, c: Client, w: World)
    requires Consistent(cfg, c) && Dialed(cfg, c, w).1.Ok? && Dialed(cfg, c, w).1.value.1.Built?
    ensures var (c', answer) := Dialed(cfg, c, w);
            var t := answer.value.1;
            && c'.http == Some(answer.value)
            && Anchored(cfg) && t.anchor == cfg.anchor.value && t.url == cfg.url && IsHttps(cfg.url)
            && (t.presented.Some? ==> !c'.sessionOnly && (c'.http == c.http ==> c'.fingerprint == w.confirm))
  {}

  /** The promise of the seam, and exactly when it is kept: a transport that presents a certificate
      presents the bytes now on disk if and only if the file was not rewritten between the two reads
      of the dial that built it. */
  lemma PresentsDiskExactly(cfg: Config, ops: seq<Operation>, w: World)
    requires w.Quiet()
    requires Dialed(cfg, After(cfg, ops), w).1.Ok? && Dialed(cfg, After(cfg, ops), w).1.value.1.Built?
    ensures var presented, b := Dialed(cfg, After(cfg, ops), w).1.value.1.presented, Builder(cfg, ops + [Dial(w)]);
            presented.Some? ==> b.Some? && (presented == w.confirm <==> b.value.fingerprint == b.value.load)
  {
    HandedOut(cfg, ops, w);
  }

  ghost predicate AllQuiet(ops: seq<Operation>) {
    forall op | op in ops && op.Dial? :: op.w.Quiet()
  }

  /** So rewrites that fall between dials, however many, never leave a stale certificate in use. */
  lemma NeverStale(cfg: Config, ops: seq<Operation>, w: World)
    requires AllQuiet(ops) && w.Quiet()
    requires Dialed(cfg, After(cfg, ops), w).1.Ok? && Dialed(cfg, After(cfg, ops), w).1.value.1.Built?
    ensures var presented := Dialed(cfg, After(cfg, ops), w).1.value.1.presented;
            presented == None || presented == w.confirm
  {
    var all := ops + [Dial(w)];
    assert all[..|ops|] == ops;
    PresentsDiskExactly(cfg, ops, w);
    if Dialed(cfg, After(cfg, ops), w).1.value.1.presented.Some? {
      HandedOut(cfg, ops, w);
      BuilderReads(cfg, all);
      var d := Dial(Builder(cfg, all).value);
      assert d in ops || d == Dial(w);
    }
  }

  /** It does happen: a file rewritten during the build and then put back is confirmed by the next dial
      while the context carries the other content. */
  lemma RacedRewriteGoesUnnoticed(cfg: Config, a: Bytes, b: Bytes)
    requires Anchored(cfg) && IsHttps(cfg.url) && cfg.hasPair && a != b
    ensures var raced := World(Some(a), Some(a), Some(b), false, false, false);
            var quiet := World(Some(a), Some(a), Some(a), false, false, false);
            Dialed(cfg, After(cfg, [Dial(raced)]), quiet).1 == Ok((0, Built(cfg.anchor.value, cfg.url, Some(b))))
  {
    var raced := World(Some(a), Some(a), Some(b), false, false, false);
    assert [Dial(raced)][..0] == [];
    assert After(cfg, []) == NEW_CLIENT;
    assert After(cfg, [Dial(raced)]) == Next(cfg, NEW_CLIENT, Dial(raced));
  }

  lemma StaysSessionOnly(cfg: Config, c: Client, op: Operation)
    ensures c.sessionOnly || op == UseSessionOnly ==> Next(cfg, c, op).sessionOnly
  {}

  lemma NoCertificate(cfg: Config, c: Client, w: World)
    requires Consistent(cfg, c) && c.sessionOnly
    ensures var answer := Dialed(cfg, c, w).1; answer.Ok? && answer.value.1.Built? ==> answer.value.1.presented == None
  {}

  /** Once session-only is set, no later dial of the run presents a certificate. */
  lemma {:induction false} SessionOnlyForGood(cfg: Config, before: seq<Operation>, after: seq<Operation>, w: World)
    ensures After(cfg, before + [UseSessionOnly] + after).sessionOnly
    ensures var answer := Dialed(cfg, After(cfg, before + [UseSessionOnly] + after), w).1;
            answer.Ok? && answer.value.1.Built? ==> answer.value.1.presented == None
    decreases |after|
  {
    hide After, Next, Dialed, Consistent;
    var ops := before + [UseSessionOnly] + after;
    AfterLast(cfg, ops);
    RunConsistent(cfg, ops);
    if after == [] {
      assert ops[|ops| - 1] == UseSessionOnly;
    } else {
      SessionOnlyForGood(cfg, before, after[..|after| - 1], w);
      assert ops[..|ops| - 1] == before + [UseSessionOnly] + after[..|after| - 1];
    }
    StaysSessionOnly(cfg, After(cfg, ops[..|ops| - 1]), ops[|ops| - 1]);
    NoCertificate(cfg, After(cfg, ops), w);
  }

  /** Unchanged bytes return the same transport and change nothing; changed bytes close the old one
      once, before anything new exists; and a rebuild that fails leaves nothing staged. */
  lemma Reconfirmation(cfg: Config, ops: seq<Operation>, w: World)
    requires After(cfg, ops).http.Some? && After(cfg, ops).fingerprint.Some? && w.confirm.Some?
    ensures var c := After(cfg, ops);
            var (c', answer) := Dialed(cfg, c, w);
            if w.confirm == c.fingerprint then c' == c && answer == Ok(c.http.value)
            else
              && c'.closed == c.closed + [c.http.value.0] && c.http.value.0 !in c.closed
              && (answer.Ok? ==> answer.value.0 == c.created && c'.http == Some(answer.value))
              && (answer.Err? ==> c'.http.None? && c'.created == c.created)
  {
    RunConsistent(cfg, ops);
  }

  // ----- when a dial answers

  /** The staged transport is handed out again. */
  predicate Reused(c: Client, w: World) {
    c.http.Some? && (c.fingerprint.None? || (w.confirm.Some? && w.confirm == c.fingerprint))
  }

  /** A transport is built: nothing was staged, or what was is stale and could be closed. */
  predicate Rebuilt(c: Client, w: World) {
    c.http.None? || (c.fingerprint.Some? && w.confirm.Some? && w.confirm != c.fingerprint && !w.closeFails)
  }

  /** Nothing stands in the way of building one: there is an anchor and an https URL, and a certificate
      that would be presented is inside its validity window and can be read both times. */
  predicate Buildable(cfg: Config, c: Client, w: World) {
    && cfg.anchor.Some? && cfg.anchor.value != "" && "https://" <= cfg.url && !w.contextFails
    && (cfg.hasPair && !c.sessionOnly ==> !w.expired && w.fingerprint.Some? && w.load.Some?)
  }

  /** A dial answers exactly when the staged transport is reused or a new one can be built; the new one
      presents the admin certificate whenever there is a pair and session-only is not set. */
  lemma DialsExactly(cfg: Config, c: Client, w: World)
    ensures Dialed(cfg, c, w).1.Ok? <==> Reused(c, w) || (Rebuilt(c, w) && Buildable(cfg, c, w))
    ensures Reused(c, w) ==> Dialed(cfg, c, w) == (c, Ok(c.http.value))
    ensures Rebuilt(c, w) && Buildable(cfg, c, w) ==>
              var (c', answer) := Dialed(cfg, c, w);
              && answer == Ok((c.created, Built(cfg.anchor.value, cfg.url, if cfg.hasPair && !c.sessionOnly then w.load else None)))
              && c'.http == Some(answer.value) && c'.fingerprint == if cfg.hasPair && !c.sessionOnly then w.fingerprint else None
  {}

  /** The refusals of a dial that has to build: the first one that applies. */
  lemma RefusesExactly(cfg: Config, c: Client, w: World)
    requires Rebuilt(c, w) && Dialed(cfg, c, w).1.Err?
    ensures var e, presents := Dialed(cfg, c, w).1.error, cfg.hasPair && !c.sessionOnly;
            && (e == NoAnchor <==> cfg.anchor == None || cfg.anchor == Some(""))
            && (e == NotHttps <==> cfg.anchor.Some? && cfg.anchor.value != "" && !("https://" <= cfg.url))
            && (cfg.anchor.Some? && cfg.anchor.value != "" && "https://" <= cfg.url ==>
                  && (e == CertificateExpired <==> presents && w.expired)
                  && (presents && !w.expired ==> (e == CertificateUnreadable <==> w.fingerprint.None?)))
    ensures Dialed(cfg, c, w).0.http.None?
  {}

  /** A staged transport whose certificate file cannot be read is refused and stays staged; one that
      is stale and cannot be closed is refused and dropped. */
  lemma StaleRefusals(cfg: Config, c: Client, w: World)
    requires c.http.Some? && c.fingerprint.Some?
    ensures w.confirm.None? ==> Dialed(cfg, c, w) == (c, Err(CertificateUnreadable))
    ensures w.confirm.Some? && w.confirm != c.fingerprint && w.closeFails ==>
              var (c', answer) := Dialed(cfg, c, w);
              answer == Err(CloseFailed) && c'.http.None? && c'.fingerprint.None? && c'.closed == c.closed + [c.http.value.0]
  {}

  /** What an injection stages is handed out as it is, until something else is staged; None, and the
      session-only switch, force the next dial to build. */
  lemma InjectedIsHandedOut(cfg: Config, ops: seq<Operation>, id: nat, w: World)
    ensures Dialed(cfg, After(cfg, ops + [Inject(Some(id))]), w).1 == Ok((id, Injected))
    ensures After(cfg, ops + [Inject(None)]).http.None? && After(cfg, ops + [UseSessionOnly]).http.None?
  {
    hide Dialed;
    AfterLast(cfg, ops + [Inject(Some(id))]);
    AfterLast(cfg, ops + [Inject(None)]);
    AfterLast(cfg, ops + [UseSessionOnly]);
    DialsExactly(cfg, After(cfg, ops + [Inject(Some(id))]), w);
    hide After;
  }

  // ----- the class

  class APIClient {
    const cfg: Config
    var http: Option<(nat, Origin)>
    var certFingerprint: Option<Bytes>
    var hasFingerprintPath: bool
    var sessionOnlyDial: bool
    ghost var created: nat
    ghost var closed: seq<nat>

    ghost predicate Valid()
      reads this
    {
      hasFingerprintPath == certFingerprint.Some?
    }

    ghost function Value(): Client
      reads this
    {
      Client(http, certFingerprint, sessionOnlyDial, created, closed)
    }

    constructor (cfg: Config)
      ensures Valid() && Value() == NEW_CLIENT && this.cfg == cfg
    {
      this.cfg := cfg;
      http, certFingerprint, hasFingerprintPath, sessionOnlyDial := None, None, false, false;
      created, closed := 0, [];
    }

    /** The property getter. A stale transport is closed and the same getter is entered again, which
        then builds: at most one level deep. `name` identifies a transport built by this call. */
    method GetHttp(w: World, name: nat) returns (answer: Answer)
      requires Valid() && name == created
      modifies this
      ensures Valid()
      ensures (Value(), answer) == Dialed(cfg, old(Value()), w)
      decreases http.Some?
    {
      if http.None? {
        if cfg.anchor.None? || cfg.anchor.value == "" {
          return Err(NoAnchor);
        }
        if !("https://" <= cfg.url) {
          return Err(NotHttps);
        }
        var presentsCertificate := if sessionOnlyDial then false else cfg.hasPair;
        if presentsCertificate {
          if w.expired {
            return Err(CertificateExpired);
          }
          if w.fingerprint.None? {
            return Err(CertificateUnreadable);
          }
          certFingerprint := w.fingerprint;
          hasFingerprintPath := true;
        } else {
          certFingerprint := None;
          hasFingerprintPath := false;
        }
        if w.contextFails || (presentsCertificate && w.load.None?) {
          return Err(ContextFailed);
        }
        var presented := if presentsCertificate then w.load else None;
        http := Some((name, Built(cfg.anchor.value, cfg.url, presented)));
        created := created + 1;
        return Ok(http.value);
      }
      if certFingerprint.Some? && hasFingerprintPath {
        if w.confirm.None? {
          return Err(CertificateUnreadable);
        }
        if w.confirm != certFingerprint {
          ghost var stale := http.value.0;
          http := None;
          certFingerprint := None;
          hasFingerprintPath := false;
          closed := closed + [stale];
          if w.closeFails {
            return Err(CloseFailed);
          }
          answer := GetHttp(w, name);
          return;
        }
      }
      return Ok(http.value);
    }

    /** The property setter: a stub, or None to force a rebuild. */
    method SetHttp(stub: Option<nat>)
      requires Valid()
      modifies this
      ensures Valid() && Value() == Next(cfg, old(Value()), Inject(stub))
    {
      http := if stub.Some? then Some((stub.value, Injected)) else None;
      certFingerprint := None;
      hasFingerprintPath := false;
      if stub.Some? && stub.value >= created {
        created := stub.value + 1;
      }
    }

    method UseSessionOnlyTransport()
      requires Valid()
      modifies this
      ensures Valid() && Value() == Next(cfg, old(Value()), UseSessionOnly)
    {
      sessionOnlyDial := true;
      http := None;
    }
  }
}
