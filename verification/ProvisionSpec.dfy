/** Provisioning on values: what each part makes of the token's objects and of the lists of
    replies and refusals that are still to come. */
module ProvisionSpec {
  import opened Provisioning

  // ----- Arguments

  /** A certificate as given: absent, or in a form that the converter takes or not. */
  datatype Pem = Absent | Text(startsWithDash: bool, converts: bool)

  /** A private key as given: absent, or what the parser makes of it. */
  datatype KeyText = NoKey | KeyData(parses: bool, supported: bool, exports: bool, curveKnown: bool)

  datatype Params = Params(certificate: Pem, privateKey: KeyText, jitp: Pem)

  /** What the token reports of a public key: whether it is an elliptic-curve key, and the
      length of its point. */
  datatype KeyReport = KeyReport(isEc: bool, pointLength: nat)

  // ----- The token and the heap as a value

  /** Whether the next allocation fails. */
  predicate Refused(refusals: seq<bool>) {
    refusals != [] && refusals[0]
  }

  function LaterRefusals(refusals: seq<bool>): seq<bool> {
    if refusals == [] then [] else refusals[1..]
  }

  datatype World = World(objects: seq<Object>, nextHandle: nat, replies: seq<Reply>, refusals: seq<bool>) {
    /** The status of the next library call. */
    function Answer(): Rv {
      Status(Next(replies))
    }

    /** After a call that changes nothing else. */
    function Asked(): World {
      this.(replies := Rest(replies))
    }

    /** After an allocation. */
    function Allocated(): World {
      this.(refusals := LaterRefusals(refusals))
    }

    /** What a search gives out. */
    function Handle(kind: Kind): nat {
      var i := FirstOf(objects, kind);
      if Answer() == Ok && i < |objects| then objects[i].handle else NONE
    }

    /** After a call that creates an object. */
    function Created(kind: Kind): World {
      if Answer() == Ok
      then Asked().(objects := objects + [Object(nextHandle, kind)], nextHandle := nextHandle + 1)
      else Asked()
    }
  }

  datatype Step = Step(rv: Rv, after: World)

  /** The clean-up of a list of kinds. */
  function Cleaned(w: World, kinds: seq<Kind>): Step {
    var r := DestroyKinds(w.objects, Rest(w.replies), kinds);
    Step(Returned(w.Answer(), r.statuses), w.(objects := r.objects, replies := r.replies))
  }

  // ----- Imports

  function CertificateProvisioned(w: World, pem: Pem, kind: Kind): Step {
    var rv := if pem.Absent? || !pem.startsWithDash then AttributeValueInvalid else w.Answer();
    if rv != Ok then Step(rv, w.Asked())
    else if Refused(w.refusals) then Step(HostMemory, w.Asked().Allocated())
    else if !pem.converts then Step(ArgumentsBad, w.Asked().Allocated())
    else
      var ready := Cleaned(w.Asked().Allocated(), [kind]).after;
      Step(ready.Answer(), ready.Created(kind))
  }

  function KeyProvisioned(w: World, key: KeyText): Step
    requires key.KeyData?
  {
    var ready := w.Asked().Allocated();
    if !key.parses || !key.supported then Step(ArgumentsBad, w)
    else if Refused(w.refusals) then Step(HostMemory, ready)
    else if w.Answer() != Ok then Step(w.Answer(), ready)
    else if !key.exports then Step(AttributeValueInvalid, ready)
    else if !key.curveKnown then Step(CurveNotSupported, ready)
    else Step(ready.Answer(), ready.Created(PRIVATE_KIND))
  }

  /** The key is usable in every respect, no call or allocation fails, and the token gives a
      handle of the new object out. */
  predicate KeyAccepted(w: World, key: KeyText) {
    && key.KeyData? && key.parses && key.supported && key.exports && key.curveKnown
    && w.Answer() == Ok && !Refused(w.refusals)
    && w.Asked().Answer() == Ok && Next(w.Asked().replies) != NoHandle
  }

  function CertificateImported(w: World, params: Params, importSupported: bool): Step {
    var cleans := importSupported && w.Answer() == Ok && params.certificate.Text? && params.privateKey.KeyData?;
    var cleaned := if cleans then Cleaned(w.Asked(), DEFAULT_KINDS) else Step(w.Answer(), w.Asked());
    if cleaned.rv == Ok && params.certificate.Text?
    then CertificateProvisioned(cleaned.after, params.certificate, CERTIFICATE_KIND)
    else cleaned
  }

  function KeyImported(w: World, params: Params, importSupported: bool): Step {
    var before := CertificateImported(w, params, importSupported);
    if importSupported && before.rv == Ok && params.privateKey.KeyData?
    then KeyProvisioned(before.after, params.privateKey)
    else before
  }

  function CredentialsImported(w: World, params: Params, importSupported: bool): Step {
    var before := KeyImported(w, params, importSupported);
    if before.rv == Ok && params.jitp.Text? then
      var jitp := CertificateProvisioned(before.after, params.jitp, JITP_KIND);
      if jitp.rv == DeviceMemory then jitp.(rv := Ok) else jitp
    else before
  }

  // ----- What the imports leave on the token

  lemma OneKindDestroyed(objects: seq<Object>, replies: seq<Reply>, kind: Kind)
    ensures var after := DestroyKinds(objects, replies, [kind]).objects;
            && Count(after, kind) <= Count(objects, kind)
            && forall other :: other != kind ==> Count(after, other) == Count(objects, other)
  {
    KindsDestroyed(objects, replies, [kind], kind);
    forall other | other != kind
      ensures Count(DestroyKinds(objects, replies, [kind]).objects, other) == Count(objects, other)
    {
      KindsDestroyed(objects, replies, [kind], other);
    }
  }

  lemma CountsAfterCreate(objects: seq<Object>, created: Object)
    ensures forall kind :: Count(objects + [created], kind) ==
              Count(objects, kind) + if kind == created.kind then 1 else 0
  {
    forall kind ensures Count(objects + [created], kind)
        == Count(objects, kind) + if kind == created.kind then 1 else 0 {
      CountAppend(objects, created, kind);
    }
  }

  lemma {:induction false} CountAppend(objects: seq<Object>, created: Object, kind: Kind)
    ensures Count(objects + [created], kind) == Count(objects, kind) + if kind == created.kind then 1 else 0
  {
    if objects == [] {
      assert [created][1..] == [];
    } else {
      assert (objects + [created])[1..] == objects[1..] + [created];
      CountAppend(objects[1..], created, kind);
    }
  }

  /** A certificate's import leaves other kinds alone and adds at most one to its own. */
  lemma CertificateReplaces(w: World, pem: Pem, kind: Kind)
    ensures var r := CertificateProvisioned(w, pem, kind);
            && (forall other :: other != kind ==> Count(r.after.objects, other) == Count(w.objects, other))
            && (r.rv == Ok ==> 1 <= Count(r.after.objects, kind) <= Count(w.objects, kind) + 1)
            && (r.rv != Ok ==> Count(r.after.objects, kind) <= Count(w.objects, kind))
  {
    var ready := w.Asked().Allocated();
    OneKindDestroyed(w.objects, Rest(ready.replies), kind);
    CountsAfterCreate(Cleaned(ready, [kind]).after.objects, Object(w.nextHandle, kind));
  }

  /** Every one of the default kinds is destroyed without an error, and so is the first
      library call. */
  ghost predicate CleansUp(objects: seq<Object>, replies: seq<Reply>) {
    DestroyKinds(objects, Rest(Rest(replies)), DEFAULT_KINDS).statuses == [Ok, Ok, Ok, Ok]
  }

  lemma DefaultsDestroyed(objects: seq<Object>, replies: seq<Reply>)
    requires DestroyKinds(objects, replies, DEFAULT_KINDS).statuses == [Ok, Ok, Ok, Ok]
    ensures var r := DestroyKinds(objects, replies, DEFAULT_KINDS).objects;
            Count(r, CERTIFICATE_KIND) == 0 && Count(r, PRIVATE_KIND) == 0
  {
    assert [Ok, Ok, Ok, Ok] == seq(4, _ => Ok);
    AllDestroyed(objects, replies, DEFAULT_KINDS);
    assert DEFAULT_KINDS[0] == CERTIFICATE_KIND && DEFAULT_KINDS[2] == PRIVATE_KIND;
  }

  lemma CertificateIsThere(w: World, params: Params, importSupported: bool)
    ensures var r := CertificateImported(w, params, importSupported);
            && (r.rv == Ok && params.certificate.Text? ==> Count(r.after.objects, CERTIFICATE_KIND) >= 1)
            && (r.rv == Ok && importSupported && params.certificate.Text? && params.privateKey.KeyData?
                && CleansUp(w.objects, w.replies) ==>
                  Count(r.after.objects, CERTIFICATE_KIND) == 1 && Count(r.after.objects, PRIVATE_KIND) == 0)
  {
    var cleaned := Cleaned(w.Asked(), DEFAULT_KINDS);
    CertificateReplaces(cleaned.after, params.certificate, CERTIFICATE_KIND);
    CertificateReplaces(w.Asked(), params.certificate, CERTIFICATE_KIND);
    if CleansUp(w.objects, w.replies) {
      DefaultsDestroyed(w.objects, Rest(Rest(w.replies)));
    }
  }

  /** The private key has been imported: it was tried, and accepted. */
  predicate KeyIsImported(w: World, params: Params, importSupported: bool) {
    var before := CertificateImported(w, params, importSupported);
    importSupported && before.rv == Ok && KeyAccepted(before.after, params.privateKey)
  }

  lemma KeyIsThere(w: World, params: Params, importSupported: bool)
    ensures var r, before := KeyImported(w, params, importSupported), CertificateImported(w, params, importSupported);
            && Count(r.after.objects, CERTIFICATE_KIND) == Count(before.after.objects, CERTIFICATE_KIND)
            && (KeyIsImported(w, params, importSupported) ==>
                  Count(r.after.objects, PRIVATE_KIND) == Count(before.after.objects, PRIVATE_KIND) + 1)
  {
    var before := CertificateImported(w, params, importSupported).after;
    CountsAfterCreate(before.objects, Object(before.nextHandle, PRIVATE_KIND));
  }

  lemma JitpKeepsOthers(w: World, params: Params, importSupported: bool)
    ensures var r, before := CredentialsImported(w, params, importSupported), KeyImported(w, params, importSupported);
            && Count(r.after.objects, CERTIFICATE_KIND) == Count(before.after.objects, CERTIFICATE_KIND)
            && Count(r.after.objects, PRIVATE_KIND) == Count(before.after.objects, PRIVATE_KIND)
            && (r.rv == Ok ==> before.rv == Ok)
  {
    CertificateReplaces(KeyImported(w, params, importSupported).after, params.jitp, JITP_KIND);
  }

  /** After the imports: an accepted key is there, a certificate that was given is there, and
      after a clean clean-up each is the only one. */
  lemma CredentialsAreThere(w: World, params: Params, importSupported: bool)
    ensures var r, imported := CredentialsImported(w, params, importSupported),
        KeyIsImported(w, params, importSupported);
            && (r.rv == Ok && params.certificate.Text? ==> Count(r.after.objects, CERTIFICATE_KIND) >= 1)
            && (r.rv == Ok && imported ==> Count(r.after.objects, PRIVATE_KIND) >= 1)
            && (r.rv == Ok && imported && params.certificate.Text? && CleansUp(w.objects, w.replies) ==>
                  Count(r.after.objects, CERTIFICATE_KIND) == 1 && Count(r.after.objects, PRIVATE_KIND) == 1)
  {
    JitpKeepsOthers(w, params, importSupported);
    KeyIsThere(w, params, importSupported);
    CertificateIsThere(w, params, importSupported);
    KeyFailureIsKept(w, params, importSupported);
  }

  lemma KeyFailureIsKept(w: World, params: Params, importSupported: bool)
    ensures KeyImported(w, params, importSupported).rv == Ok
        ==> CertificateImported(w, params, importSupported).rv == Ok
  {
  }

  /** The token is cleaned only if import is supported and both a certificate and a private
      key are given. Otherwise everything but what is imported keeps its number. */
  lemma NothingElseIsDestroyed(w: World, params: Params, importSupported: bool, kind: Kind)
    requires !(importSupported && params.certificate.Text? && params.privateKey.KeyData?)
    ensures var before, after := Count(w.objects, kind),
                                 Count(CredentialsImported(w, params, importSupported).after.objects, kind);
            && (kind !in {CERTIFICATE_KIND, PRIVATE_KIND, JITP_KIND} ==> after == before)
            && (kind == CERTIFICATE_KIND && !params.certificate.Text? ==> after == before)
            && (kind == PRIVATE_KIND && !(importSupported && params.privateKey.KeyData?) ==> after == before)
            && (kind == PRIVATE_KIND ==> before <= after <= before + 1)
            && (kind == JITP_KIND && !params.jitp.Text? ==> after == before)
  {
    var first, second := CertificateImported(w, params, importSupported), KeyImported(w, params, importSupported);
    CertificateReplaces(w.Asked(), params.certificate, CERTIFICATE_KIND);
    CountsAfterCreate(first.after.objects, Object(first.after.nextHandle, PRIVATE_KIND));
    CertificateReplaces(second.after, params.jitp, JITP_KIND);
  }

  /** What an import of a certificate returns, in the order in which it finds out. */
  lemma CertificateErrors(w: World, pem: Pem, kind: Kind)
    ensures var r := CertificateProvisioned(w, pem, kind);
            && (pem.Absent? || !pem.startsWithDash ==> r.rv == AttributeValueInvalid)
            && (pem.Text? && pem.startsWithDash && w.Answer() != Ok ==> r.rv == w.Answer())
            && (pem.Text? && pem.startsWithDash && w.Answer() == Ok && Refused(w.refusals) ==> r.rv == HostMemory)
            && (pem.Text? && pem.startsWithDash && !pem.converts && w.Answer() == Ok && !Refused(w.refusals) ==>
                  r.rv == ArgumentsBad)
            && (!(pem.Text? && pem.startsWithDash && pem.converts) || w.Answer() != Ok || Refused(w.refusals) ==>
                  r.after.objects == w.objects)
  {
  }

  lemma KeyErrors(w: World, key: KeyText)
    requires key.KeyData?
    ensures var r := KeyProvisioned(w, key);
            && (!key.parses || !key.supported ==> r.rv == ArgumentsBad)
            && (key.parses && key.supported && Refused(w.refusals) ==> r.rv == HostMemory)
            && (key.parses && key.supported && !Refused(w.refusals) && w.Answer() != Ok ==> r.rv == w.Answer())
            && (key.parses && key.supported && !Refused(w.refusals) && w.Answer() == Ok ==>
                  && (!key.exports ==> r.rv == AttributeValueInvalid)
                  && (key.exports && !key.curveKnown ==> r.rv == CurveNotSupported))
  {
  }

  predicate Usable(pem: Pem) {
    pem.Text? && pem.startsWithDash && pem.converts
  }

  lemma FlawlessCertificate(w: World, pem: Pem, kind: Kind)
    requires Flawless(w) && Usable(pem)
    ensures CertificateProvisioned(w, pem, kind).rv == Ok && Flawless(CertificateProvisioned(w, pem, kind).after)
    ensures Count(CertificateProvisioned(w, pem, kind).after.objects, kind) == 1
    ensures NoHandle !in w.replies ==> NoHandle !in CertificateProvisioned(w, pem, kind).after.replies
  {
    KindDestroyed(w.objects, Rest(w.Asked().Allocated().replies), kind);
    CountsAfterCreate(Others(w.objects, kind), Object(w.nextHandle, kind));
    var ready := w.Asked().Allocated();
    FlawlessLater(w);
    FlawlessLater(w.Asked());
    FlawlessLater(ready);
    FlawlessKinds(w.objects, Rest(ready.replies), [kind]);
    FlawlessKind(w.objects, Rest(ready.replies), kind);
    OneKind(w.objects, Rest(ready.replies), kind);
    FlawlessLater(Cleaned(ready, [kind]).after);
  }

  lemma OneKind(objects: seq<Object>, replies: seq<Reply>, kind: Kind)
    ensures DestroyKinds(objects, replies, [kind]).objects == DestroyKind(objects, replies, kind).objects
  {
    var first := DestroyKind(objects, replies, kind);
    assert DestroyKinds(first.objects, first.replies, [kind][1..]).objects == first.objects;
  }

  lemma FlawlessKey(w: World, key: KeyText)
    requires Flawless(w) && key.KeyData? && key.parses && key.supported && key.exports && key.curveKnown
    ensures KeyProvisioned(w, key).rv == Ok && Flawless(KeyProvisioned(w, key).after)
    ensures NoHandle !in w.replies ==> KeyAccepted(w, key)
  {
    FlawlessLater(w);
    FlawlessLater(w.Asked());
    FlawlessLater(w.Asked().Allocated());
  }

  predicate UsableParams(params: Params) {
    && (params.certificate.Absent? || Usable(params.certificate))
    && (params.jitp.Absent? || Usable(params.jitp))
    && (params.privateKey.KeyData? ==>
          var key := params.privateKey; key.parses && key.supported && key.exports && key.curveKnown)
  }

  lemma FlawlessFirstPart(w: World, params: Params, importSupported: bool)
    requires Flawless(w) && UsableParams(params)
    ensures var r := CertificateImported(w, params, importSupported);
            && r.rv == Ok && Flawless(r.after)
            && (NoHandle !in w.replies ==> NoHandle !in r.after.replies)
  {
    FlawlessLater(w);
    FlawlessCleaned(w.Asked(), DEFAULT_KINDS);
    var cleans := importSupported && params.certificate.Text? && params.privateKey.KeyData?;
    var ready := if cleans then Cleaned(w.Asked(), DEFAULT_KINDS).after else w.Asked();
    if params.certificate.Text? {
      FlawlessCertificate(ready, params.certificate, CERTIFICATE_KIND);
    }
  }

  lemma FlawlessSecondPart(w: World, params: Params, importSupported: bool)
    requires Flawless(w) && UsableParams(params)
    ensures KeyImported(w, params, importSupported).rv == Ok && Flawless(KeyImported(w, params, importSupported).after)
    ensures importSupported && params.privateKey.KeyData? && NoHandle !in w.replies ==>
              KeyIsImported(w, params, importSupported)
  {
    FlawlessFirstPart(w, params, importSupported);
    if params.privateKey.KeyData? {
      FlawlessKey(CertificateImported(w, params, importSupported).after, params.privateKey);
    }
  }

  /** Where no call fails and no allocation is refused, usable arguments are imported: the
      whole first half succeeds, and a private key counts as imported wherever import is
      supported and no handle is withheld. */
  lemma FlawlessImport(w: World, params: Params, importSupported: bool)
    requires Flawless(w) && UsableParams(params)
    ensures CredentialsImported(w, params, importSupported).rv == Ok
    ensures params.jitp.Text? ==> Count(CredentialsImported(w, params, importSupported).after.objects, JITP_KIND) >= 1
    ensures importSupported && params.privateKey.KeyData? && NoHandle !in w.replies ==>
              KeyIsImported(w, params, importSupported)
  {
    FlawlessSecondPart(w, params, importSupported);
    if params.jitp.Text? {
      FlawlessCertificate(KeyImported(w, params, importSupported).after, params.jitp, JITP_KIND);
    }
  }

  lemma FlawlessCleaned(w: World, kinds: seq<Kind>)
    requires Flawless(w) && kinds != []
    ensures Cleaned(w, kinds).rv == Ok && Flawless(Cleaned(w, kinds).after)
    ensures NoHandle !in w.replies ==> NoHandle !in Cleaned(w, kinds).after.replies
  {
    FlawlessLater(w);
    FlawlessKinds(w.objects, Rest(w.replies), kinds);
  }

  /** A token that has no room for the just-in-time certificate is forgiven; every other
      failure of that part is the result. */
  lemma OnlyMemoryIsForgiven(w: World, params: Params, importSupported: bool)
    requires KeyImported(w, params, importSupported).rv == Ok && params.jitp.Text?
    ensures var ready := KeyImported(w, params, importSupported).after;
            var jitp := CertificateProvisioned(ready, params.jitp, JITP_KIND).rv;
            CredentialsImported(w, params, importSupported).rv == if jitp == DeviceMemory then Ok else jitp
  {
  }

  // ----- The search, and the export of a public key

  /** Whether an export gets as far as the size of the key: the function list, the type and
      the size are answered, and the key is an elliptic-curve one. */
  predicate Sized(w: World, isEc: bool) {
    isEc && w.Answer() == Ok && w.Asked().Answer() == Ok && w.Asked().Asked().Answer() == Ok
  }

  /** Whether an export gives a buffer: it has a size, the buffer is there, and so is the value. */
  predicate Exports(w: World, isEc: bool) {
    Sized(w, isEc) && !Refused(w.refusals) && w.Asked().Asked().Asked().Answer() == Ok
  }

  /** The length of an encoded key: the point without its two-byte tag, behind 26 bytes. */
  function DerLength(pointLength: nat): (length: nat)
    ensures length > 0
  {
    pointLength + 24
  }

  function Exported(w: World, isEc: bool): Step {
    var w1, w2, w3 := w.Asked(), w.Asked().Asked(), w.Asked().Asked().Asked();
    if w.Answer() != Ok then Step(w.Answer(), w1)
    else if w1.Answer() != Ok || !isEc then Step(w1.Answer(), w2)
    else if w2.Answer() != Ok then Step(w2.Answer(), w3)
    else if Refused(w.refusals) then Step(HostMemory, w3.Allocated())
    else Step(w3.Answer(), w3.Asked().Allocated())
  }

  /** What a search has found, with the state after it. */
  datatype Found = Found(
    rv: Rv, privateKey: nat, publicKey: nat, certificate: nat, exported: bool, length: nat, after: World)

  function KeysFound(w: World): Found {
    var w1, w2 := w.Asked(), w.Asked().Asked();
    if w.Answer() != Ok then Found(w.Answer(), NONE, NONE, NONE, false, 0, w1)
    else if w1.Handle(PRIVATE_KIND) == NONE then Found(w1.Answer(), NONE, NONE, NONE, false, 0, w2)
    else Found(w2.Answer(), w1.Handle(PRIVATE_KIND), w2.Handle(PUBLIC_KIND), NONE, false, 0, w2.Asked())
  }

  function KeyFound(w: World, key: KeyReport): Found {
    var keys := KeysFound(w);
    if keys.rv == Ok && keys.publicKey != NONE then
      var shown := Exported(keys.after, key.isEc);
      keys.(rv := shown.rv, exported := Exports(keys.after, key.isEc),
            length := if Sized(keys.after, key.isEc) then DerLength(key.pointLength) else 0,
            after := shown.after)
    else keys
  }

  function ObjectsFound(w: World, key: KeyReport): Found {
    var found := KeyFound(w, key);
    if found.rv == Ok
    then found.(rv := found.after.Answer(), certificate := found.after.Handle(CERTIFICATE_KIND),
        after := found.after.Asked())
    else found
  }

  /** Reading the token's name: it is copied unless it is blank. */
  function IdentifierRead(w: World, name: seq<char>): Step
    requires |name| > 0
  {
    var listed := w.Asked().Allocated();
    if w.Answer() != Ok then Step(w.Answer(), w.Asked())
    else if Refused(w.refusals) then Step(HostMemory, listed)
    else if listed.Answer() == Ok && name[0] != '\0' && name[0] != ' '
    then Step(if Refused(listed.refusals) then HostMemory else Ok, listed.Asked().Allocated())
    else Step(listed.Answer(), listed.Asked())
  }

  function StateFound(w: World, key: KeyReport, name: seq<char>): Found
    requires |name| > 0
  {
    var found := ObjectsFound(w, key);
    if found.rv == Ok then
      var read := IdentifierRead(found.after, name);
      found.(rv := read.rv, after := read.after)
    else found
  }

  /** Both keys are there, and the public one was exported: no pair has to be generated. */
  predicate PairFound(found: Found) {
    found.privateKey != NONE && found.publicKey != NONE && found.exported
  }

  /** A key that is exported has its own length. */
  lemma FoundLength(w: World, key: KeyReport, name: seq<char>)
    requires |name| > 0
    ensures StateFound(w, key, name).exported ==> StateFound(w, key, name).length == DerLength(key.pointLength)
  {
  }

  // ----- The dump of a key that is not there

  /** The dump is given a null buffer with a length: what was found does not do, a pair is
      generated and its handles are given out, its export gives no buffer, but that export or
      the one of the key found has been told a size. */
  predicate NullDump(w: World, oldKey: KeyReport, newKey: KeyReport, name: seq<char>)
    requires |name| > 0
  {
    var found := StateFound(w, oldKey, name);
    var generated := found.after.Asked();
    && !PairFound(found)
    && found.after.Answer() == Ok && Next(found.after.replies) != NoHandle
    && !Exports(generated, newKey.isEc)
    && (Sized(generated, newKey.isEc) || found.length > 0)
  }

  predicate NoneRefused(refusals: seq<bool>) {
    forall i :: 0 <= i < |refusals| ==> !refusals[i]
  }

  predicate Flawless(w: World) {
    AllGood(w.replies) && NoneRefused(w.refusals)
  }

  lemma FlawlessLater(w: World)
    requires Flawless(w)
    ensures w.Answer() == Ok && !Refused(w.refusals) && Flawless(w.Asked()) && Flawless(w.Allocated())
    ensures NoHandle !in w.replies ==> NoHandle !in w.Asked().replies
  {
  }

  lemma FlawlessExport(w: World, isEc: bool)
    requires Flawless(w)
    ensures (Exports(w, isEc) <==> isEc) && (Sized(w, isEc) <==> isEc)
    ensures Exported(w, isEc).rv == Ok && Flawless(Exported(w, isEc).after)
  {
    FlawlessLater(w);
    FlawlessLater(w.Asked());
    FlawlessLater(w.Asked().Asked());
    FlawlessLater(w.Asked().Asked().Asked());
    FlawlessLater(w.Asked().Asked().Asked().Asked());
  }

  lemma FlawlessKeys(w: World)
    requires Flawless(w)
    ensures KeysFound(w).rv == Ok && Flawless(KeysFound(w).after)
    ensures KeysFound(w).publicKey != NONE ==> KeysFound(w).privateKey != NONE
  {
    FlawlessLater(w);
    FlawlessLater(w.Asked());
    FlawlessLater(w.Asked().Asked());
  }

  /** Where no call fails, the search finds exactly what is there: the first object of each
      kind, the public key only with a private one, and its export if it is an elliptic-curve
      key. */
  lemma FlawlessFinds(w: World, key: KeyReport)
    requires Flawless(w) && forall i :: 0 <= i < |w.objects| ==> w.objects[i].handle != NONE
    ensures var found := ObjectsFound(w, key);
            && found.rv == Ok
            && (found.privateKey != NONE <==> Count(w.objects, PRIVATE_KIND) > 0)
            && (found.publicKey != NONE <==> Count(w.objects, PRIVATE_KIND) > 0 && Count(w.objects, PUBLIC_KIND) > 0)
            && (found.certificate != NONE <==> Count(w.objects, CERTIFICATE_KIND) > 0)
            && (found.exported <==> found.publicKey != NONE && key.isEc)
  {
    FlawlessKeys(w);
    var keys := KeysFound(w);
    FlawlessLater(w);
    FlawlessLater(w.Asked());
    FlawlessLater(w.Asked().Asked());
    NoneLeft(w.objects, PRIVATE_KIND);
    NoneLeft(w.objects, PUBLIC_KIND);
    NoneLeft(w.objects, CERTIFICATE_KIND);
    if keys.publicKey != NONE {
      FlawlessExport(keys.after, key.isEc);
    }
    FlawlessLater(KeyFound(w, key).after);
  }

  lemma FlawlessIdentifier(w: World, name: seq<char>)
    requires |name| > 0 && Flawless(w)
    ensures IdentifierRead(w, name).rv == Ok && Flawless(IdentifierRead(w, name).after)
  {
    FlawlessLater(w);
    FlawlessLater(w.Asked());
    FlawlessLater(w.Asked().Allocated());
    FlawlessLater(w.Asked().Allocated().Asked());
  }

  lemma FlawlessState(w: World, key: KeyReport, name: seq<char>)
    requires |name| > 0 && Flawless(w)
    ensures var found := StateFound(w, key, name);
            && Flawless(found.after)
            && (found.length > 0 <==> found.exported)
            && (found.exported ==> found.privateKey != NONE && found.publicKey != NONE)
  {
    FlawlessKeys(w);
    var keys := KeysFound(w);
    if keys.publicKey != NONE {
      FlawlessExport(keys.after, key.isEc);
    }
    var found := KeyFound(w, key);
    FlawlessLater(found.after);
    FlawlessIdentifier(ObjectsFound(w, key).after, name);
  }

  /** Where no call fails a pair is generated exactly if a key is missing or the public one is
      not an elliptic-curve key. */
  lemma FlawlessPair(w: World, key: KeyReport, name: seq<char>)
    requires |name| > 0 && Flawless(w) && forall i :: 0 <= i < |w.objects| ==> w.objects[i].handle != NONE
    ensures PairFound(StateFound(w, key, name)) <==>
              Count(w.objects, PRIVATE_KIND) > 0 && Count(w.objects, PUBLIC_KIND) > 0 && key.isEc
  {
    FlawlessFinds(w, key);
  }

  /** A key of 65 bytes, reported with its two-byte tag, takes 91 bytes when encoded. */
  lemma EncodedLength()
    ensures DerLength(67) == 91
  {
  }

  /** Where no call fails and no allocation is refused, no dump reads through null. */
  lemma NullDumpNeedsFailure(w: World, oldKey: KeyReport, newKey: KeyReport, name: seq<char>)
    requires |name| > 0 && Flawless(w)
    ensures !NullDump(w, oldKey, newKey, name)
  {
    FlawlessState(w, oldKey, name);
    FlawlessLater(StateFound(w, oldKey, name).after);
    FlawlessExport(StateFound(w, oldKey, name).after.Asked(), newKey.isEc);
  }

  /** One refused allocation is enough: nothing is imported, the token is empty and answers
      every call, and the third buffer, the one for the generated key, is refused. */
  lemma NullDumpHappens(pointLength: nat)
    ensures var w, key := World([], 1, [], [false, false, true]), KeyReport(true, pointLength);
            && CredentialsImported(w, Params(Absent, NoKey, Absent), true) == Step(Ok, w)
            && NullDump(w, key, key, "ab")
  {
    var w := World([], 1, [], [false, false, true]);
    var key := KeyReport(true, pointLength);
    assert KeysFound(w) == Found(Ok, NONE, NONE, NONE, false, 0, w);
    assert ObjectsFound(w, key).after == w;
    assert IdentifierRead(w, "ab").after == World([], 1, [], [true]);
  }

  /** Without a name there is one buffer fewer: the second one is the key's. */
  lemma NullDumpWithoutName(pointLength: nat, name: seq<char>)
    requires name == " b" || name == ['\0']
    ensures var w, key := World([], 1, [], [false, true]), KeyReport(true, pointLength);
            NullDump(w, key, key, name) && !NullDump(w, key, key, "ab")
  {
    var w := World([], 1, [], [false, true]);
    var key := KeyReport(true, pointLength);
    assert KeysFound(w) == Found(Ok, NONE, NONE, NONE, false, 0, w);
    assert ObjectsFound(w, key).after == w;
    assert IdentifierRead(w, name).after == World([], 1, [], [true]);
    assert IdentifierRead(w, "ab").after == World([], 1, [], []);
  }
}
