/** Where the configuration and the auditor entries come from, over whole runs; and exactly when they change. */
module AdminHistory {
  import opened Bytes
  import opened Wrappers
  import opened ProgramState
  import opened ProgramSteps
  import opened MixInvariant

  // ---------------------------------------------------------------- one update

  /** The configuration has the value that the field asks for. */
  predicate Has(c: Config, field: ConfigField) {
    match field
    case Paused(v) => c.paused == v
    case DustFreeUnit(v) => c.dustFreeUnit == v
    case BurnerTtlMax(v) => c.burnerTtlMax == v
    case BurnerTtlMin(v) => c.burnerTtlMin == v
    case BurnerRegistryCap(v) => c.burnerRegistryCap == v
    case MixMinParticipants(v) => c.mixMin == v
    case MixMaxParticipants(v) => c.mixMax == v
    case MixRevealWindow(v) => c.mixRevealWindow == v
    case AuditorCosignLamports(v) => c.auditorCosignLamports == v
    case Admin(v) => c.admin == v
  }

  predicate SameKnob(f: ConfigField, g: ConfigField) {
    match f
    case Paused(_) => g.Paused?
    case DustFreeUnit(_) => g.DustFreeUnit?
    case BurnerTtlMax(_) => g.BurnerTtlMax?
    case BurnerTtlMin(_) => g.BurnerTtlMin?
    case BurnerRegistryCap(_) => g.BurnerRegistryCap?
    case MixMinParticipants(_) => g.MixMinParticipants?
    case MixMaxParticipants(_) => g.MixMaxParticipants?
    case MixRevealWindow(_) => g.MixRevealWindow?
    case AuditorCosignLamports(_) => g.AuditorCosignLamports?
    case Admin(_) => g.Admin?
  }

  /** An accepted update stores the requested value and leaves every other one, and the version, as they are. */
  lemma UpdateStores(c: Config, field: ConfigField, g: ConfigField)
    requires SetField(c, field).Ok?
    ensures var c' := SetField(c, field).value;
            && Has(c', field) && c'.version == c.version && c'.lastUpdated == c.lastUpdated
            && (SameKnob(field, g) ==> (Has(c', g) <==> g == field))
            && (!SameKnob(field, g) ==> (Has(c', g) <==> Has(c, g)))
  {
    match field
    case Paused(_) =>
    case DustFreeUnit(_) =>
    case BurnerTtlMax(_) =>
    case BurnerTtlMin(_) =>
    case BurnerRegistryCap(_) =>
    case MixMinParticipants(_) =>
    case MixMaxParticipants(_) =>
    case MixRevealWindow(_) =>
    case AuditorCosignLamports(_) =>
    case Admin(_) =>
  }

  /** In every reachable state an update succeeds exactly if the admin signs it and the configuration c' that it asks
      for is in order: the bounds that every reachable configuration keeps, and no maximum below the minimum. */
  lemma UpdateExactly(hash: Hash, events: seq<Event>, now: I64, signer: Key, field: ConfigField, c': Config)
    requires var config := After(hash, events).config;
             config.Some? ==> forall g: ConfigField :: Has(c', g) <==> Requested(config.value, field, g)
    ensures var s := After(hash, events);
            ConfigUpdate(s, now, signer, field).Ok? <==>
              && s.config.Some? && signer == s.config.value.admin && ConfigOk(c')
              && (field.MixMaxParticipants? ==> c'.mixMax >= c'.mixMin)
  {
    hide After;
    ReachableOk(hash, events);
    var s := After(hash, events);
    if s.config.Some? {
      ConfigInOrder(hash, s);
      hide Inv;
      AllKnobs(s.config.value, field, c');
    }
  }

  lemma ConfigInOrder(hash: Hash, s: State)
    requires Inv(hash, s)
    ensures s.config.Some? ==> ConfigOk(s.config.value)
  {
    hide RoundOk, EntryOk;
  }

  /** What the configuration after an update should have. */
  predicate Requested(c: Config, field: ConfigField, g: ConfigField) {
    if SameKnob(field, g) then g == field else Has(c, g)
  }

  lemma AllKnobs(c: Config, field: ConfigField, c': Config)
    requires forall g: ConfigField :: Has(c', g) <==> Requested(c, field, g)
    ensures c'.dustFreeUnit == (if field.DustFreeUnit? then field.unit else c.dustFreeUnit)
    ensures c'.burnerTtlMax == (if field.BurnerTtlMax? then field.ttl else c.burnerTtlMax)
    ensures c'.burnerTtlMin == (if field.BurnerTtlMin? then field.ttl else c.burnerTtlMin)
    ensures c'.burnerRegistryCap == (if field.BurnerRegistryCap? then field.cap else c.burnerRegistryCap)
    ensures c'.mixMin == (if field.MixMinParticipants? then field.n else c.mixMin)
    ensures c'.mixMax == (if field.MixMaxParticipants? then field.n else c.mixMax)
    ensures c'.mixRevealWindow == (if field.MixRevealWindow? then field.seconds else c.mixRevealWindow)
  {
    assert Has(c', DustFreeUnit(c'.dustFreeUnit)) && Has(c', BurnerTtlMax(c'.burnerTtlMax));
    assert Has(c', BurnerTtlMin(c'.burnerTtlMin)) && Has(c', BurnerRegistryCap(c'.burnerRegistryCap));
    assert Has(c', MixMinParticipants(c'.mixMin)) && Has(c', MixMaxParticipants(c'.mixMax));
    assert Has(c', MixRevealWindow(c'.mixRevealWindow));
  }

  // ---------------------------------------------------------------- the configuration over a run

  /** The values that the program is compiled with. */
  predicate Compiled(admin: Key, field: ConfigField) {
    match field
    case Paused(v) => !v
    case DustFreeUnit(v) => v == 1000
    case BurnerTtlMax(v) => v == 30 * 24 * 60 * 60
    case BurnerTtlMin(v) => v == 60
    case BurnerRegistryCap(v) => v == 64
    case MixMinParticipants(v) => v == 4
    case MixMaxParticipants(v) => v == 16
    case MixRevealWindow(v) => v == 10 * 60
    case AuditorCosignLamports(v) => v == 5000
    case Admin(v) => v == admin
  }

  /** The last successful update of the same knob. */
  function LastUpdate(hash: Hash, events: seq<Event>, field: ConfigField): Option<ConfigField> {
    if events == [] then None
    else
      var last := |events| - 1;
      var e := events[last];
      if e.action.DoConfigUpdate? && SameKnob(e.action.field, field) && Try(hash, After(hash, events[..last]), e).Ok?
      then Some(e.action.field) else LastUpdate(hash, events[..last], field)
  }

  /** Who has initialized the program. */
  function Creator(hash: Hash, events: seq<Event>): Option<Key> {
    if events == [] then None
    else
      var last := |events| - 1;
      var e := events[last];
      if e.action.DoInitialize? && Try(hash, After(hash, events[..last]), e).Ok? then Some(e.action.admin)
      else Creator(hash, events[..last])
  }

  /** When the configuration last changed. */
  function LastChange(hash: Hash, events: seq<Event>): int {
    if events == [] then 0
    else
      var last := |events| - 1;
      var e := events[last];
      if (e.action.DoInitialize? || e.action.DoConfigUpdate?) && Try(hash, After(hash, events[..last]), e).Ok?
      then e.now
      else LastChange(hash, events[..last])
  }

  lemma ConfigStep(hash: Hash, s: State, e: Event, field: ConfigField)
    ensures var s' := Exec(hash, s, e);
            var ok := Try(hash, s, e).Ok?;
            if e.action.DoInitialize? && ok then
              && s.config.None? && s'.config.Some? && (Has(s'.config.value, field) <==> Compiled(e.action.admin, field))
              && s'.config.value.lastUpdated == e.now && s'.config.value.version == 0x0401
            else if e.action.DoConfigUpdate? && ok then
              && s.config.Some? && s'.config.Some? && s'.config.value.lastUpdated == e.now
              && s'.config.value.version == s.config.value.version && e.action.signer == s.config.value.admin
              && (SameKnob(e.action.field, field) ==> (Has(s'.config.value, field) <==> field == e.action.field))
              && (!SameKnob(e.action.field, field) ==> (Has(s'.config.value, field) <==> Has(s.config.value, field)))
            else s'.config == s.config
  {
    match e.action
    case DoInitialize(_) =>
    case DoConfigUpdate(_, f) =>
      if Try(hash, s, e).Ok? {
        UpdateStores(s.config.value, f, field);
      }
    case _ => assert Exec(hash, s, e).config == s.config;
  }

  /** In every reachable state every value of the configuration is the one last requested for it, or the one compiled in
      if it was never changed; and the time is that of the last change. */
  lemma {:induction false} ConfigProvenance(hash: Hash, events: seq<Event>, field: ConfigField)
    ensures var s := After(hash, events);
            var last := LastUpdate(hash, events, field);
            if s.config.None? then Creator(hash, events).None? && last.None?
            else
              && Creator(hash, events).Some? && s.config.value.version == 0x0401
              && s.config.value.lastUpdated == LastChange(hash, events)
              && (Has(s.config.value, field) <==>
                  if last.Some? then field == last.value else Compiled(Creator(hash, events).value, field))
  {
    hide Exec, Try, Has, Compiled;
    if events != [] {
      var n := |events| - 1;
      ConfigProvenance(hash, events[..n], field);
      ConfigStep(hash, After(hash, events[..n]), events[n], field);
      SameKnobField(events[n], field);
    }
  }

  lemma SameKnobField(e: Event, field: ConfigField)
    ensures e.action.DoConfigUpdate? && field == e.action.field ==> SameKnob(e.action.field, field)
  {
  }

  // ---------------------------------------------------------------- auditors

  predicate IsRegister(e: Event, mint: Key) {
    e.action.DoAuditorRegister? && e.action.mint == mint
  }

  predicate IsRotate(e: Event, mint: Key) {
    e.action.DoAuditorRotate? && e.action.mint == mint
  }

  lemma AuditorStep(hash: Hash, s: State, e: Event, mint: Key)
    ensures var s' := Exec(hash, s, e);
            var ok := Try(hash, s, e).Ok?;
            if IsRegister(e, mint) && ok then
              && mint !in s.auditors && mint in s'.auditors
              && s'.auditors[mint] == Auditor(mint, e.action.pubkey, e.now, e.now, e.action.cooldown, e.action.admin)
            else if IsRotate(e, mint) && ok then
              && mint in s.auditors && mint in s'.auditors
              && s'.auditors[mint] == s.auditors[mint].(pubkey := e.action.pubkey, lastRotatedAt := e.now)
            else
              && (mint in s'.auditors <==> mint in s.auditors)
              && (mint in s.auditors ==> s'.auditors[mint] == s.auditors[mint])
  {
    match e.action
    case DoAuditorRegister(_, _, _, _, _) =>
    case DoAuditorRotate(_, _, _, _) =>
    case _ => assert Exec(hash, s, e).auditors == s.auditors;
  }

  /** The last successful registration or rotation of a mint's auditor. */
  function LastKey(hash: Hash, events: seq<Event>, mint: Key): Option<Event> {
    if events == [] then None
    else
      var last := |events| - 1;
      var e := events[last];
      if (IsRegister(e, mint) || IsRotate(e, mint)) && Try(hash, After(hash, events[..last]), e).Ok? then Some(e)
      else LastKey(hash, events[..last], mint)
  }

  /** Its one successful registration. */
  function Registration(hash: Hash, events: seq<Event>, mint: Key): Option<Event> {
    if events == [] then None
    else
      var last := |events| - 1;
      var e := events[last];
      if IsRegister(e, mint) && Try(hash, After(hash, events[..last]), e).Ok? then Some(e)
      else Registration(hash, events[..last], mint)
  }

  ghost predicate FromRegistration(a: Auditor, e: Event, mint: Key) {
    && IsRegister(e, mint)
    && a.mint == mint && a.registeredAt == e.now && a.cooldown == e.action.cooldown && a.admin == e.action.admin
  }

  ghost predicate KeyFrom(a: Auditor, e: Event, mint: Key) {
    && a.lastRotatedAt == e.now
    && (IsRegister(e, mint) || IsRotate(e, mint))
    && a.pubkey == if e.action.DoAuditorRegister? then e.action.pubkey else if e.action.DoAuditorRotate?
       then e.action.pubkey else []
  }

  /** In every reachable state an auditor entry has the terms of its registration, and the key and the time of the last
      successful registration or rotation. */
  lemma {:induction false} AuditorProvenance(hash: Hash, events: seq<Event>, mint: Key)
    ensures var s := After(hash, events);
            var r, k := Registration(hash, events, mint), LastKey(hash, events, mint);
            if mint in s.auditors then
              r.Some? && k.Some? && FromRegistration(s.auditors[mint], r.value, mint)
                && KeyFrom(s.auditors[mint], k.value, mint)
            else r.None? && k.None?
  {
    hide Exec, Try;
    if events != [] {
      var n := |events| - 1;
      AuditorProvenance(hash, events[..n], mint);
      AuditorStep(hash, After(hash, events[..n]), events[n], mint);
    }
  }

  /** A key can be registered exactly by the admin, once for each mint, with an accepted proof, while not paused. */
  lemma RegisterExactly(hash: Hash, events: seq<Event>, now: I64, admin: Key, mint: Key, pubkey: seq<Byte>,
                        proofOk: bool, cooldown: I64)
    ensures var s := After(hash, events);
            AuditorRegister(s, now, admin, mint, pubkey, proofOk, cooldown).Ok? <==>
              && s.config.Some? && !s.config.value.paused && admin == s.config.value.admin && proofOk
              && Registration(hash, events, mint).None?
  {
    hide After, Registration, LastKey, FromRegistration, KeyFrom;
    AuditorProvenance(hash, events, mint);
  }

  /** It can be rotated exactly by the admin who registered it and still is the admin, with an accepted proof, once the
      cooldown has passed since the last registration or rotation, while not paused. */
  lemma RotateExactly(hash: Hash, events: seq<Event>, now: I64, admin: Key, mint: Key, pubkey: seq<Byte>, proofOk: bool)
    ensures var s := After(hash, events);
            var r, k := Registration(hash, events, mint), LastKey(hash, events, mint);
            AuditorRotate(s, now, admin, mint, pubkey, proofOk).Ok? <==>
              && s.config.Some? && !s.config.value.paused && admin == s.config.value.admin && proofOk
              && r.Some? && IsRegister(r.value, mint) && r.value.action.admin == admin && k.Some?
              && (now - k.value.now >= r.value.action.cooldown || r.value.action.cooldown == I64_MIN)
  {
    hide After, Registration, LastKey;
    AuditorProvenance(hash, events, mint);
  }
}
