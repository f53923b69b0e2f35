/** The provisioning calls: a token and a heap that may refuse any call, and the buffers that
    each path allocates and frees. */
module ProvisionDevice {
  import opened Provisioning
  import opened ProvisionSpec

  /** The block of a pointer that may be null. */
  function Block(p: nat): set<nat> {
    if p != NONE then {p} else {}
  }

  /** Blocks that are allocated; a block is a non-zero number and a failed call gives zero. */
  class Heap {
    ghost var live: set<nat>
    var next: nat
    var refusals: seq<bool>  // whether each future allocation fails

    ghost predicate Valid()
      reads this
    {
      next > 0 && forall p :: p in live ==> 0 < p < next
    }

    constructor (refusals: seq<bool>)
      ensures Valid() && live == {}
    {
      live, next := {}, 1;
      this.refusals := refusals;
    }

    method Malloc() returns (p: nat)
      requires Valid()
      modifies this
      ensures Valid()
      ensures live == old(live) + Block(p) && Block(p) !! old(live)
      ensures p == NONE <==> Refused(old(refusals))
      ensures refusals == LaterRefusals(old(refusals))
    {
      var refused := Refused(refusals);
      refusals := LaterRefusals(refusals);
      if refused {
        return NONE;
      }
      p := next;
      next := next + 1;
      live := live + {p};
    }

    /** Only an allocated block may be freed, so no block is freed twice. */
    method Free(p: nat)
      requires Valid() && p in live
      modifies this
      ensures Valid() && live == old(live) - {p} && refusals == old(refusals)
    {
      live := live - {p};
    }

    method FreeIfAllocated(p: nat)
      requires Valid() && Block(p) <= live
      modifies this
      ensures Valid() && live == old(live) - Block(p) && refusals == old(refusals)
    {
      if p != NONE {
        Free(p);
      }
    }
  }

  /** A generated key pair. */
  function PairAt(handle: nat): seq<Object> {
    [Object(handle, PUBLIC_KIND), Object(handle + 1, PRIVATE_KIND)]
  }

  class Token {
    var objects: seq<Object>
    var replies: seq<Reply>
    var nextHandle: nat
    var keyPairs: nat  // key pairs generated so far

    ghost predicate Valid()
      reads this`objects, this`nextHandle
    {
      && nextHandle > 0
      && forall i :: 0 <= i < |objects| ==> 0 < objects[i].handle < nextHandle
    }

    /** Some object of the kind has the handle. */
    ghost predicate Has(handle: nat, kind: Kind)
      reads this`objects
    {
      exists i :: 0 <= i < |objects| && objects[i] == Object(handle, kind)
    }

    constructor (objects: seq<Object>, nextHandle: nat, replies: seq<Reply>)
      requires nextHandle > 0 && forall i :: 0 <= i < |objects| ==> 0 < objects[i].handle < nextHandle
      ensures Valid() && this.objects == objects && this.replies == replies && keyPairs == 0
    {
      this.objects, this.nextHandle, this.replies, keyPairs := objects, nextHandle, replies, 0;
    }

    /** A call that changes nothing in the token. */
    method Call() returns (rv: Rv)
      requires Valid()
      modifies this`replies
      ensures rv == Status(Next(old(replies))) && replies == Rest(old(replies))
    {
      rv := Status(Next(replies));
      replies := Rest(replies);
    }

    method Find(kind: Kind) returns (rv: Rv, handle: nat)
      requires Valid()
      modifies this`replies
      ensures rv == Status(Next(old(replies))) && replies == Rest(old(replies))
      ensures rv == Ok && FirstOf(objects, kind) < |objects| ==> handle == objects[FirstOf(objects, kind)].handle
      ensures rv != Ok || FirstOf(objects, kind) == |objects| ==> handle == NONE
      ensures handle != NONE ==> Has(handle, kind)
    {
      handle := NONE;
      rv := Call();
      var i := FirstOf(objects, kind);
      if rv == Ok && i < |objects| {
        handle := objects[i].handle;
        assert objects[i] == Object(handle, kind);
      }
    }

    /** Destroy the object that a search for a kind has just found. */
    method DestroyFirst(kind: Kind) returns (rv: Rv)
      requires Valid() && FirstOf(objects, kind) < |objects|
      modifies this`objects, this`replies
      ensures Valid()
      ensures rv == Status(Next(old(replies))) && replies == Rest(old(replies))
      ensures objects == if rv == Ok then Without(old(objects), FirstOf(old(objects), kind)) else old(objects)
    {
      rv := Call();
      if rv == Ok {
        objects := Without(objects, FirstOf(objects, kind));
      }
    }

    method Create(kind: Kind) returns (rv: Rv, handle: nat)
      requires Valid()
      modifies this`objects, this`replies, this`nextHandle
      ensures Valid() && replies == Rest(old(replies))
      ensures rv == Status(Next(old(replies)))
      ensures rv != Ok ==> objects == old(objects) && nextHandle == old(nextHandle)
      ensures rv == Ok ==> objects == old(objects) + [Object(old(nextHandle), kind)]
      ensures rv == Ok ==> nextHandle == old(nextHandle) + 1
      ensures handle == if rv == Ok && Next(old(replies)) != NoHandle then old(nextHandle) else NONE
      ensures handle != NONE ==> Has(handle, kind)
    {
      var reply := Next(replies);
      rv := Call();
      handle := NONE;
      if rv == Ok {
        objects := objects + [Object(nextHandle, kind)];
        assert objects[|objects| - 1] == Object(nextHandle, kind);
        handle := if reply == NoHandle then NONE else nextHandle;
        nextHandle := nextHandle + 1;
      }
    }

    method GenerateKeyPair() returns (rv: Rv, privateKey: nat, publicKey: nat)
      requires Valid()
      modifies this
      ensures Valid() && rv == Status(Next(old(replies))) && replies == Rest(old(replies))
      ensures rv != Ok ==> objects == old(objects) && keyPairs == old(keyPairs)
      ensures privateKey == NONE <==> rv != Ok || Next(old(replies)) == NoHandle
      ensures publicKey == NONE <==> rv != Ok || Next(old(replies)) == NoHandle
      ensures rv == Ok ==> keyPairs == old(keyPairs) + 1 && objects == old(objects) + PairAt(old(nextHandle))
      ensures privateKey != NONE ==> Has(privateKey, PRIVATE_KIND)
      ensures publicKey != NONE ==> Has(publicKey, PUBLIC_KIND)
    {
      var reply := Next(replies);
      rv := Call();
      privateKey, publicKey := NONE, NONE;
      if rv == Ok {
        objects := objects + PairAt(nextHandle);
        assert objects[|objects| - 2] == Object(nextHandle, PUBLIC_KIND);
        assert objects[|objects| - 1] == Object(nextHandle + 1, PRIVATE_KIND);
        if reply != NoHandle {
          publicKey, privateKey := nextHandle, nextHandle + 1;
        }
        nextHandle, keyPairs := nextHandle + 2, keyPairs + 1;
      }
    }

    /** Destroy the objects of a list of kinds. */
    method DestroyObjects(kinds: seq<Kind>) returns (result: Rv)
      requires Valid()
      modifies this`objects, this`replies
      ensures Valid()
      ensures var r := DestroyKinds(old(objects), Rest(old(replies)), kinds);
              && objects == r.objects && replies == r.replies
              && result == Returned(Status(Next(old(replies))), r.statuses)
    {
      result := Call();
      ghost var initial, goal := result, DestroyKinds(objects, replies, kinds);
      ghost var statuses: seq<Rv> := [];
      assert kinds[0..] == kinds && [] + goal.statuses == goal.statuses;
      var index := 0;
      while index < |kinds|
        invariant index <= |kinds| && Valid()
        invariant Prepend(statuses, DestroyKinds(objects, replies, kinds[index..])) == goal
        invariant result == Returned(initial, statuses)
      {
        NextKind(objects, replies, kinds, index, statuses);
        result := DestroyObjectsOf(kinds[index]);
        statuses := statuses + [result];
        if result == FunctionNotSupported {
          return;
        }
        index := index + 1;
      }
      assert statuses + [] == statuses;
    }

    /** The objects of one kind, as many as there are. */
    method DestroyObjectsOf(kind: Kind) returns (result: Rv)
      requires Valid()
      modifies this`objects, this`replies
      ensures Valid()
      ensures DestroyKind(old(objects), old(replies), kind) == Destroyed(objects, replies, result)
    {
      ghost var goal := DestroyKind(objects, replies, kind);
      var handle;
      ghost var atFind := replies;
      result, handle := Find(kind);
      while result == Ok && handle != NONE
        invariant Valid() && replies == Rest(atFind) && result == Status(Next(atFind))
        invariant handle == NONE <==> result != Ok || FirstOf(objects, kind) == |objects|
        invariant DestroyKind(objects, atFind, kind) == goal
        decreases |objects|
      {
        result := DestroyFirst(kind);
        if result == Ok {
          atFind := replies;
          result, handle := Find(kind);
        } else {
          break;
        }
      }
    }
  }

  /** The token and the heap as a value. */
  ghost function WorldOf(token: Token, heap: Heap): World
    reads token, heap
  {
    World(token.objects, token.nextHandle, token.replies, heap.refusals)
  }

  /** Import a certificate, replacing those under its name as far as they can be destroyed.
      The buffer for the converted certificate is always freed. */
  method ProvisionCertificate(token: Token, heap: Heap, pem: Pem, kind: Kind) returns (rv: Rv, handle: nat)
    requires token.Valid() && heap.Valid()
    modifies token`objects, token`replies, token`nextHandle, heap
    ensures token.Valid() && heap.Valid() && heap.live == old(heap.live)
    ensures Step(rv, WorldOf(token, heap)) == CertificateProvisioned(old(WorldOf(token, heap)), pem, kind)
    ensures forall other :: other != kind ==> Count(token.objects, other) == Count(old(token.objects), other)
    ensures rv == Ok ==> 1 <= Count(token.objects, kind) <= Count(old(token.objects), kind) + 1
    ensures rv != Ok ==> Count(token.objects, kind) <= Count(old(token.objects), kind)
    ensures handle != NONE ==> rv == Ok && token.Has(handle, kind)
  {
    CertificateReplaces(WorldOf(token, heap), pem, kind);
    handle := NONE;
    var buffer := NONE;
    rv := token.Call();
    if pem.Absent? || !pem.startsWithDash {
      rv := AttributeValueInvalid;
    }
    if rv == Ok {
      buffer := heap.Malloc();
      if buffer != NONE {
        if !pem.converts {
          rv := ArgumentsBad;
        }
      } else {
        rv := HostMemory;
      }
    }
    if rv == Ok {
      var ignored := token.DestroyObjects([kind]);
      rv, handle := token.Create(kind);
    }
    if buffer != NONE {
      heap.Free(buffer);
    }
  }

  /** Import a private key. The buffer for its components is always freed. */
  method ProvisionPrivateKey(token: Token, heap: Heap, key: KeyText) returns (rv: Rv, handle: nat)
    requires token.Valid() && heap.Valid() && key.KeyData?
    modifies token`objects, token`replies, token`nextHandle, heap
    ensures token.Valid() && heap.Valid() && heap.live == old(heap.live)
    ensures Step(rv, WorldOf(token, heap)) == KeyProvisioned(old(WorldOf(token, heap)), key)
    ensures rv != Ok ==> token.objects == old(token.objects)
    ensures rv == Ok ==> token.objects == old(token.objects) + [Object(old(token.nextHandle), PRIVATE_KIND)]
    ensures rv == Ok && handle != NONE <==> KeyAccepted(old(WorldOf(token, heap)), key)
    ensures handle in {NONE, old(token.nextHandle)}
  {
    handle := NONE;
    if !key.parses || !key.supported {
      return ArgumentsBad, NONE;
    }
    rv := token.Call();
    var components := heap.Malloc();
    if components == NONE {
      rv := HostMemory;
    }
    if rv == Ok && !key.exports {
      rv := AttributeValueInvalid;
    }
    if rv == Ok && !key.curveKnown {
      rv := CurveNotSupported;
    }
    if rv == Ok {
      rv, handle := token.Create(PRIVATE_KIND);
    }
    if components != NONE {
      heap.Free(components);
    }
  }

  /** Export a public key into a new buffer, if it is an elliptic-curve key. The buffer is
      freed again when the export fails, but the length stays as the size query left it. */
  method ExportPublicKey(token: Token, heap: Heap, report: KeyReport, oldLength: nat)
    returns (rv: Rv, buffer: nat, length: nat)
    requires token.Valid() && heap.Valid()
    modifies token`replies, heap
    ensures heap.Valid()
    ensures heap.live == old(heap.live) + Block(buffer) && Block(buffer) !! old(heap.live)
    ensures Step(rv, WorldOf(token, heap)) == Exported(old(WorldOf(token, heap)), report.isEc)
    ensures buffer != NONE <==> Exports(old(WorldOf(token, heap)), report.isEc)
    ensures length == if Sized(old(WorldOf(token, heap)), report.isEc) then DerLength(report.pointLength) else oldLength
  {
    buffer, length := NONE, oldLength;
    rv := token.Call();
    if rv == Ok {
      rv := token.Call();  // key type
    }
    if rv == Ok && report.isEc {
      rv := token.Call();  // size
      if rv == Ok {
        length := DerLength(report.pointLength);
        buffer := heap.Malloc();
        if buffer == NONE {
          rv := HostMemory;
        }
      }
      if rv == Ok {
        rv := token.Call();  // value
      }
    }
    if buffer != NONE && rv != Ok {
      heap.Free(buffer);
      buffer := NONE;
    }
  }

  /** What is found on the token, and the two buffers that the caller has to free. */
  datatype ProvisionedState = ProvisionedState(
    privateKey: nat, publicKey: nat, certificate: nat, derPublicKey: nat, derLength: nat, identifier: nat)

  /** The state is what the search on values finds. */
  ghost predicate IsFound(s: ProvisionedState, found: Found) {
    && s.privateKey == found.privateKey && s.publicKey == found.publicKey && s.certificate == found.certificate
    && (s.derPublicKey != NONE <==> found.exported) && s.derLength == found.length
  }

  /** Its handles name objects of their kinds. */
  ghost predicate HandlesNamed(token: Token, s: ProvisionedState)
    reads token
  {
    && (s.privateKey != NONE ==> token.Has(s.privateKey, PRIVATE_KIND))
    && (s.publicKey != NONE ==> token.Has(s.publicKey, PUBLIC_KIND))
    && (s.certificate != NONE ==> token.Has(s.certificate, CERTIFICATE_KIND))
  }

  /** Length of the token's name: its characters before the first space. */
  method NameLength(name: seq<char>) returns (i: nat)
    ensures i <= |name| && ' ' !in name[..i]
    ensures i < |name| ==> name[i] == ' '
  {
    i := 0;
    while i < |name|
      invariant i <= |name| && ' ' !in name[..i]
    {
      if name[i] == ' ' {
        break;
      }
      i := i + 1;
    }
  }

  /** Look for the two keys; the public one only if the private one is there. */
  method FindKeys(token: Token, heap: Heap) returns (rv: Rv, privateKey: nat, publicKey: nat)
    requires token.Valid()
    modifies token`replies
    ensures Found(rv, privateKey, publicKey, NONE, false, 0, WorldOf(token, heap))
        == KeysFound(old(WorldOf(token, heap)))
    ensures privateKey != NONE ==> token.Has(privateKey, PRIVATE_KIND)
    ensures publicKey != NONE ==> token.Has(publicKey, PUBLIC_KIND)
  {
    privateKey, publicKey := NONE, NONE;
    rv := token.Call();
    if rv == Ok {
      rv, privateKey := token.Find(PRIVATE_KIND);
    }
    if rv == Ok && privateKey != NONE {
      rv, publicKey := token.Find(PUBLIC_KIND);
    }
  }

  /** The first part of the search: keys, the export of the public one, the certificate. */
  method FindObjects(token: Token, heap: Heap, key: KeyReport) returns (rv: Rv, s: ProvisionedState)
    requires token.Valid() && heap.Valid()
    modifies token`replies, heap
    ensures heap.Valid() && s.identifier == NONE && HandlesNamed(token, s)
    ensures heap.live == old(heap.live) + Block(s.derPublicKey) && Block(s.derPublicKey) !! old(heap.live)
    ensures var found := ObjectsFound(old(WorldOf(token, heap)), key);
            rv == found.rv && IsFound(s, found) && WorldOf(token, heap) == found.after
  {
    var privateKey, publicKey, certificate, derPublicKey, derLength := NONE, NONE, NONE, NONE, 0;
    rv, privateKey, publicKey := FindKeys(token, heap);
    if rv == Ok && publicKey != NONE {
      rv, derPublicKey, derLength := ExportPublicKey(token, heap, key, derLength);
    }
    if rv == Ok {
      rv, certificate := token.Find(CERTIFICATE_KIND);
    }
    s := ProvisionedState(privateKey, publicKey, certificate, derPublicKey, derLength, NONE);
  }

  /** The slot list of the library: one buffer on success, none otherwise. */
  method GetSlotList(token: Token, heap: Heap) returns (rv: Rv, slots: nat)
    requires token.Valid() && heap.Valid()
    modifies token`replies, heap
    ensures heap.Valid()
    ensures rv == Ok <==> slots != NONE
    ensures heap.live == old(heap.live) + Block(slots) && Block(slots) !! old(heap.live)
    ensures var w := old(WorldOf(token, heap));
            Step(rv, WorldOf(token, heap)) ==
              if w.Answer() != Ok then Step(w.Answer(), w.Asked())
              else Step(if Refused(w.refusals) then HostMemory else Ok, w.Asked().Allocated())
  {
    slots := NONE;
    rv := token.Call();
    if rv == Ok {
      slots := heap.Malloc();
      if slots == NONE {
        rv := HostMemory;
      }
    }
  }

  /** The second part: a copy of the token's name, if it has one. */
  method ReadIdentifier(token: Token, heap: Heap, name: seq<char>) returns (rv: Rv, identifier: nat)
    requires token.Valid() && heap.Valid() && |name| > 0
    modifies token`replies, heap
    ensures heap.Valid()
    ensures heap.live == old(heap.live) + Block(identifier) && Block(identifier) !! old(heap.live)
    ensures Step(rv, WorldOf(token, heap)) == IdentifierRead(old(WorldOf(token, heap)), name)
  {
    identifier := NONE;
    var slots;
    rv, slots := GetSlotList(token, heap);
    if rv == Ok {
      rv := token.Call();  // token information
      heap.Free(slots);
      if rv == Ok && name[0] != '\0' && name[0] != ' ' {
        var length := NameLength(name);
        if length != 0 {
          identifier := heap.Malloc();
          if identifier == NONE {
            rv := HostMemory;
          }
        }
      }
    }
  }

  /** Look for the objects of an earlier provisioning. Every buffer but the two in the state
      is freed on every path. */
  method GetProvisionedState(token: Token, heap: Heap, key: KeyReport, name: seq<char>)
    returns (rv: Rv, s: ProvisionedState)
    requires token.Valid() && heap.Valid() && |name| > 0
    modifies token`replies, heap
    ensures heap.Valid() && HandlesNamed(token, s)
    ensures heap.live == old(heap.live) + Block(s.derPublicKey) + Block(s.identifier)
    ensures Block(s.derPublicKey) !! old(heap.live) && Block(s.identifier) !! old(heap.live) + Block(s.derPublicKey)
    ensures var found := StateFound(old(WorldOf(token, heap)), key, name);
            rv == found.rv && IsFound(s, found) && WorldOf(token, heap) == found.after
  {
    rv, s := FindObjects(token, heap, key);
    if rv == Ok {
      var identifier;
      rv, identifier := ReadIdentifier(token, heap, name);
      s := s.(identifier := identifier);
    }
  }

  /** Clean up if both objects are to be replaced, and import the certificate. */
  method ImportCertificate(token: Token, heap: Heap, params: Params, importSupported: bool) returns (rv: Rv)
    requires token.Valid() && heap.Valid()
    modifies token`objects, token`replies, token`nextHandle, heap
    ensures token.Valid() && heap.Valid() && heap.live == old(heap.live)
    ensures Step(rv, WorldOf(token, heap)) == CertificateImported(old(WorldOf(token, heap)), params, importSupported)
  {
    rv := token.Call();
    if importSupported && rv == Ok && params.certificate.Text? && params.privateKey.KeyData? {
      rv := token.DestroyObjects(DEFAULT_KINDS);
    }
    if rv == Ok && params.certificate.Text? {
      var handle;
      rv, handle := ProvisionCertificate(token, heap, params.certificate, CERTIFICATE_KIND);
    }
  }

  /** The first half: clean up, import the certificates and the private key. */
  method ImportCredentials(token: Token, heap: Heap, params: Params, importSupported: bool)
    returns (rv: Rv, imported: bool)
    requires token.Valid() && heap.Valid()
    modifies token`objects, token`replies, token`nextHandle, heap
    ensures token.Valid() && heap.Valid() && heap.live == old(heap.live)
    ensures Step(rv, WorldOf(token, heap)) == CredentialsImported(old(WorldOf(token, heap)), params, importSupported)
    ensures imported <==> KeyIsImported(old(WorldOf(token, heap)), params, importSupported)
  {
    ghost var before := WorldOf(token, heap);
    imported := false;
    var handle := NONE;
    rv := ImportCertificate(token, heap, params, importSupported);
    if importSupported && rv == Ok && params.privateKey.KeyData? {
      rv, handle := ProvisionPrivateKey(token, heap, params.privateKey);
      imported := rv == Ok && handle != NONE;
    }
    assert Step(rv, WorldOf(token, heap)) == KeyImported(before, params, importSupported);
    if rv == Ok && params.jitp.Text? {
      rv, handle := ProvisionCertificate(token, heap, params.jitp, JITP_KIND);
      if rv == DeviceMemory {
        rv := Ok;
      }
    }
  }

  /** The dump of the public key, if there is one: the buffer and the length it is given. */
  datatype Dump = NoDump | Dump(buffer: nat, length: nat) {
    /** It would read bytes of a buffer that is not there. */
    predicate ReadsNull() {
      Dump? && buffer == NONE && length > 0
    }
  }

  /** Generate a key pair in place of what was found, and export its public key; the status
      of the export is ignored. */
  method GenerateAndExport(token: Token, heap: Heap, report: KeyReport, found: ProvisionedState)
    returns (rv: Rv, s: ProvisionedState)
    requires token.Valid() && heap.Valid() && Block(found.derPublicKey) <= heap.live
    modifies token, heap
    ensures token.Valid() && heap.Valid()
    ensures s.certificate == found.certificate && s.identifier == found.identifier
    ensures heap.live == old(heap.live) - Block(found.derPublicKey) + Block(s.derPublicKey)
    ensures Block(s.derPublicKey) !! old(heap.live) - Block(found.derPublicKey)
    ensures rv == Ok ==> s.privateKey != NONE && s.publicKey != NONE
                         && token.Has(s.privateKey, PRIVATE_KIND) && token.Has(s.publicKey, PUBLIC_KIND)
    ensures rv == Ok ==> token.keyPairs == old(token.keyPairs) + 1
    ensures token.keyPairs == old(token.keyPairs) ==> token.objects == old(token.objects)
    ensures token.keyPairs != old(token.keyPairs) ==>
              token.objects == old(token.objects) + PairAt(old(token.nextHandle))
    ensures rv == if Status(Next(old(token.replies))) != Ok then Status(Next(old(token.replies)))
                  else if Next(old(token.replies)) == NoHandle then KeyHandleInvalid else Ok
    ensures rv == Ok <==> Status(Next(old(token.replies))) == Ok && Next(old(token.replies)) != NoHandle
    ensures rv == Ok ==>
              var start := old(WorldOf(token, heap)).Asked();
              && (s.derPublicKey != NONE <==> Exports(start, report.isEc))
              && s.derLength == if Sized(start, report.isEc) then DerLength(report.pointLength) else found.derLength
  {
    s := found;
    var privateKey, publicKey;
    rv, privateKey, publicKey := token.GenerateKeyPair();
    if rv == Ok {
      heap.FreeIfAllocated(found.derPublicKey);
      var ignored, buffer, length := ExportPublicKey(token, heap, report, found.derLength);
      s := s.(privateKey := privateKey, publicKey := publicKey, derPublicKey := buffer, derLength := length);
      if privateKey == NONE || publicKey == NONE {
        rv := KeyHandleInvalid;
      }
    }
  }

  /** The key pair that was found, or a generated one. */
  method FindOrGenerate(token: Token, heap: Heap, oldKey: KeyReport, newKey: KeyReport, name: seq<char>)
    returns (rv: Rv, s: ProvisionedState, generate: bool)
    requires token.Valid() && heap.Valid() && |name| > 0
    modifies token, heap
    ensures token.Valid() && heap.Valid()
    ensures heap.live == old(heap.live) + Block(s.derPublicKey) + Block(s.identifier)
    ensures Block(s.derPublicKey) !! old(heap.live) && Block(s.identifier) !! old(heap.live) + Block(s.derPublicKey)
    ensures rv == Ok ==> s.privateKey != NONE && s.publicKey != NONE
                         && token.Has(s.privateKey, PRIVATE_KIND) && token.Has(s.publicKey, PUBLIC_KIND)
    ensures token.keyPairs == old(token.keyPairs) ==> token.objects == old(token.objects)
    ensures token.keyPairs != old(token.keyPairs) ==>
              token.objects == old(token.objects) + PairAt(old(token.nextHandle))
    ensures var found := StateFound(old(WorldOf(token, heap)), oldKey, name);
            && generate == !PairFound(found) && s.certificate == found.certificate
            && (!generate ==> rv == Ok && token.keyPairs == old(token.keyPairs) && IsFound(s, found))
            && (generate ==> rv == Generated(found.after))
            && (generate && rv == Ok ==> token.keyPairs != old(token.keyPairs) && IsGenerated(s, found, newKey))
  {
    FoundLength(WorldOf(token, heap), oldKey, name);
    ghost var found := StateFound(WorldOf(token, heap), oldKey, name);
    var ignored;
    ignored, s := GetProvisionedState(token, heap, oldKey, name);
    rv, generate := Ok, s.privateKey == NONE || s.publicKey == NONE || s.derPublicKey == NONE;
    assert found.after.Asked() == WorldOf(token, heap).Asked();
    if generate {
      rv, s := GenerateAndExport(token, heap, newKey, s);
    }
  }

  /** The status of generating a pair. */
  function Generated(w: World): Rv {
    if w.Answer() != Ok then w.Answer() else if Next(w.replies) == NoHandle then KeyHandleInvalid else Ok
  }

  /** The export of a generated pair. */
  ghost predicate IsGenerated(s: ProvisionedState, found: Found, report: KeyReport) {
    var start := found.after.Asked();
    && (s.derPublicKey != NONE <==> Exports(start, report.isEc))
    && s.derLength == if Sized(start, report.isEc) then DerLength(report.pointLength) else found.length
  }

  /** The second half, when no private key was imported: find a key pair or generate one, and
      dump its public key if it is new or there is no certificate. */
  method EnsureKeyPair(token: Token, heap: Heap, oldKey: KeyReport, newKey: KeyReport, name: seq<char>)
    returns (rv: Rv, privateKey: nat, publicKey: nat, dump: Dump)
    requires token.Valid() && heap.Valid() && |name| > 0
    modifies token, heap
    ensures token.Valid() && heap.Valid() && heap.live == old(heap.live)
    ensures rv == Ok ==> privateKey != NONE && publicKey != NONE
                         && token.Has(privateKey, PRIVATE_KIND) && token.Has(publicKey, PUBLIC_KIND)
    ensures token.keyPairs == old(token.keyPairs) ==> token.objects == old(token.objects)
    ensures token.keyPairs != old(token.keyPairs) ==>
              token.objects == old(token.objects) + PairAt(old(token.nextHandle))
    ensures var found := StateFound(old(WorldOf(token, heap)), oldKey, name);
            && (PairFound(found) ==>
                  rv == Ok && token.keyPairs == old(token.keyPairs)
                  && privateKey == found.privateKey && publicKey == found.publicKey)
            && (!PairFound(found) ==>
                  rv == Generated(found.after) && (rv == Ok ==> token.keyPairs != old(token.keyPairs)))
            && (dump.Dump? <==> rv == Ok && (found.certificate == NONE || !PairFound(found)))
    ensures dump.ReadsNull() <==> NullDump(old(WorldOf(token, heap)), oldKey, newKey, name)
    ensures dump.Dump? && dump.buffer != NONE ==>
              dump.length == DerLength((if token.keyPairs == old(token.keyPairs) then oldKey else newKey).pointLength)
  {
    FoundLength(WorldOf(token, heap), oldKey, name);
    var s, generate;
    rv, s, generate := FindOrGenerate(token, heap, oldKey, newKey, name);
    privateKey, publicKey, dump := s.privateKey, s.publicKey, NoDump;
    if rv == Ok && (s.certificate == NONE || generate) {
      dump := Dump(s.derPublicKey, s.derLength);
    }
    heap.FreeIfAllocated(s.derPublicKey);
    heap.FreeIfAllocated(s.identifier);
  }

  /** Provision the device. `importSupported` is the build option for private keys; `oldKey`,
      `newKey` and `name` are what the token reports of a public key it has, of one it
      generates, and of itself. Besides the status it returns what the local variables hold at
      the end, and the dump. */
  method Provision(token: Token, heap: Heap, params: Params, importSupported: bool,
                   oldKey: KeyReport, newKey: KeyReport, name: seq<char>)
    returns (rv: Rv, imported: bool, privateKey: nat, publicKey: nat, dump: Dump)
    requires token.Valid() && heap.Valid() && |name| > 0
    modifies token, heap
    ensures token.Valid() && heap.Valid()
    ensures heap.live == old(heap.live)
    ensures imported <==> KeyIsImported(old(WorldOf(token, heap)), params, importSupported)
    ensures imported ==> token.keyPairs == old(token.keyPairs)
    ensures rv == Ok && imported ==> Count(token.objects, PRIVATE_KIND) >= 1
    ensures rv == Ok && imported && params.certificate.Text? ==> Count(token.objects, CERTIFICATE_KIND) >= 1
    ensures rv == Ok && imported && params.certificate.Text? && CleansUp(old(token.objects), old(token.replies)) ==>
              Count(token.objects, CERTIFICATE_KIND) == 1 && Count(token.objects, PRIVATE_KIND) == 1
    ensures rv == Ok && !imported ==>
              privateKey != NONE && publicKey != NONE
              && token.Has(privateKey, PRIVATE_KIND) && token.Has(publicKey, PUBLIC_KIND)
    ensures imported || rv != Ok ==> dump.NoDump?
    ensures !params.privateKey.KeyData? && token.keyPairs == old(token.keyPairs) ==>
              forall kind :: kind !in {CERTIFICATE_KIND, JITP_KIND} ==>
                Count(token.objects, kind) == Count(old(token.objects), kind)
    ensures rv == Ok ==> CredentialsImported(old(WorldOf(token, heap)), params, importSupported).rv == Ok
    ensures CredentialsImported(old(WorldOf(token, heap)), params, importSupported).rv != Ok ==>
              rv == CredentialsImported(old(WorldOf(token, heap)), params, importSupported).rv
    ensures var w := old(WorldOf(token, heap));
            dump.ReadsNull() <==>
              !KeyIsImported(w, params, importSupported)
              && CredentialsImported(w, params, importSupported).rv == Ok
              && NullDump(CredentialsImported(w, params, importSupported).after, oldKey, newKey, name)
  {
    privateKey, publicKey, dump := NONE, NONE, NoDump;
    CredentialsAreThere(WorldOf(token, heap), params, importSupported);
    if !params.privateKey.KeyData? {
      forall kind | kind !in {CERTIFICATE_KIND, JITP_KIND}
        ensures Count(CredentialsImported(WorldOf(token, heap), params, importSupported).after.objects, kind)
                == Count(token.objects, kind)
      {
        NothingElseIsDestroyed(WorldOf(token, heap), params, importSupported, kind);
      }
    }
    rv, imported := ImportCredentials(token, heap, params, importSupported);
    if rv == Ok && !imported {
      rv, privateKey, publicKey, dump := EnsureKeyPair(token, heap, oldKey, newKey, name);
    }
  }
}
