/** Provisioning of the device's credentials into a PKCS #11 token. */
module Provisioning {

  datatype Class = Certificate | PublicKey | PrivateKey

  datatype Label = DeviceCertificate | CodeVerificationKey | DevicePrivateKey
      | DevicePublicKey | JitpCertificate | OtherLabel(text: string)

  /** What a search looks for. */
  datatype Kind = Kind(name: Label, cls: Class)

  const CERTIFICATE_KIND := Kind(DeviceCertificate, Certificate)
  const PRIVATE_KIND := Kind(DevicePrivateKey, PrivateKey)
  const PUBLIC_KIND := Kind(DevicePublicKey, PublicKey)
  const JITP_KIND := Kind(JitpCertificate, Certificate)

  /** The kinds that the default clean-up destroys. */
  const DEFAULT_KINDS := [CERTIFICATE_KIND, Kind(CodeVerificationKey, PublicKey), PRIVATE_KIND, PUBLIC_KIND]

  lemma KindsNamed()
    ensures DEFAULT_KINDS == [Kind(DeviceCertificate, Certificate), Kind(CodeVerificationKey, PublicKey),
                              Kind(DevicePrivateKey, PrivateKey), Kind(DevicePublicKey, PublicKey)]
    ensures CERTIFICATE_KIND == DEFAULT_KINDS[0] && PRIVATE_KIND == DEFAULT_KINDS[2] && PUBLIC_KIND == DEFAULT_KINDS[3]
    ensures JITP_KIND == Kind(JitpCertificate, Certificate)
  {
  }

  datatype Object = Object(handle: nat, kind: Kind)

  datatype Rv =
    | Ok
    | FunctionNotSupported
    | AttributeValueInvalid
    | ArgumentsBad
    | HostMemory
    | DeviceMemory
    | CurveNotSupported
    | KeyHandleInvalid
    | OtherError(code: nat)

  /** What the token does with one call: succeed, succeed without giving a handle out, or fail. */
  datatype Reply = Good | NoHandle | Bad(rv: Rv)

  /** An invalid handle, and a null pointer. */
  const NONE: nat := 0

  // ----- The token as a value: its objects in the order of a search, and its future replies

  function Next(replies: seq<Reply>): Reply {
    if replies == [] then Good else replies[0]
  }

  function Rest(replies: seq<Reply>): (rest: seq<Reply>)
    ensures |rest| <= |replies|
  {
    if replies == [] then [] else replies[1..]
  }

  /** A reply that claims to fail with success is a success. */
  function Status(reply: Reply): Rv {
    if reply.Bad? then reply.rv else Ok
  }

  /** Index of the first object of a kind, or the number of objects. */
  function FirstOf(objects: seq<Object>, kind: Kind): (i: nat)
    ensures i <= |objects|
    ensures i < |objects| ==> objects[i].kind == kind
    ensures forall k :: 0 <= k < i ==> objects[k].kind != kind
  {
    if objects == [] then 0
    else if objects[0].kind == kind then 0
    else 1 + FirstOf(objects[1..], kind)
  }

  function Without(objects: seq<Object>, i: nat): (rest: seq<Object>)
    requires i < |objects|
    ensures |rest| == |objects| - 1
  {
    objects[..i] + objects[i + 1..]
  }

  /** The objects of other kinds, in order. */
  function Others(objects: seq<Object>, kind: Kind): seq<Object> {
    if objects == [] then []
    else if objects[0].kind == kind then Others(objects[1..], kind)
    else [objects[0]] + Others(objects[1..], kind)
  }

  function Count(objects: seq<Object>, kind: Kind): nat {
    if objects == [] then 0
    else (if objects[0].kind == kind then 1 else 0) + Count(objects[1..], kind)
  }

  datatype Destroyed = Destroyed(objects: seq<Object>, replies: seq<Reply>, status: Rv)

  /** Destroy the objects of one kind one after the other, until a search finds none, or a
      search or a destruction fails. */
  function DestroyKind(objects: seq<Object>, replies: seq<Reply>, kind: Kind): Destroyed
    decreases |objects|
  {
    var afterFind := Rest(replies);
    var i := FirstOf(objects, kind);
    if Status(Next(replies)) != Ok then Destroyed(objects, afterFind, Status(Next(replies)))
    else if i == |objects| then Destroyed(objects, afterFind, Ok)
    else if Status(Next(afterFind)) != Ok then Destroyed(objects, Rest(afterFind), Status(Next(afterFind)))
    else DestroyKind(Without(objects, i), Rest(afterFind), kind)
  }

  datatype DestroyedAll = DestroyedAll(objects: seq<Object>, replies: seq<Reply>, statuses: seq<Rv>)

  /** The same for each kind of a list; only an unsupported function ends the list early. */
  function DestroyKinds(objects: seq<Object>, replies: seq<Reply>, kinds: seq<Kind>): (r: DestroyedAll)
    ensures |r.statuses| <= |kinds| && (kinds != [] ==> r.statuses != [])
    decreases |kinds|
  {
    if kinds == [] then DestroyedAll(objects, replies, [])
    else
      var first := DestroyKind(objects, replies, kinds[0]);
      if first.status == FunctionNotSupported then DestroyedAll(first.objects, first.replies, [first.status])
      else
        var others := DestroyKinds(first.objects, first.replies, kinds[1..]);
        DestroyedAll(others.objects, others.replies, [first.status] + others.statuses)
  }

  /** What the call returns: the status of the last kind tried, and of the first library call
      when there is none. */
  function Returned(initial: Rv, statuses: seq<Rv>): Rv {
    if statuses == [] then initial else statuses[|statuses| - 1]
  }

  function Prepend(statuses: seq<Rv>, r: DestroyedAll): DestroyedAll {
    DestroyedAll(r.objects, r.replies, statuses + r.statuses)
  }

  /** The clean-up from kind number `index` on, one kind further. */
  lemma NextKind(objects: seq<Object>, replies: seq<Reply>, kinds: seq<Kind>, index: nat, statuses: seq<Rv>)
    requires index < |kinds|
    ensures var first := DestroyKind(objects, replies, kinds[index]);
            Prepend(statuses, DestroyKinds(objects, replies, kinds[index..])) ==
              if first.status == FunctionNotSupported
              then DestroyedAll(first.objects, first.replies, statuses + [first.status])
              else Prepend(statuses + [first.status], DestroyKinds(first.objects, first.replies, kinds[index + 1..]))
  {
    assert kinds[index..][0] == kinds[index] && kinds[index..][1..] == kinds[index + 1..];
    var first := DestroyKind(objects, replies, kinds[index]);
    var later := DestroyKinds(first.objects, first.replies, kinds[index + 1..]).statuses;
    assert statuses + ([first.status] + later) == (statuses + [first.status]) + later;
  }

  // ----- Laws of the destruction

  predicate AllGood(replies: seq<Reply>) {
    forall i :: 0 <= i < |replies| ==> Status(replies[i]) == Ok
  }

  /** Where no call fails, every object of the kind goes. */
  lemma {:induction false} FlawlessKind(objects: seq<Object>, replies: seq<Reply>, kind: Kind)
    requires AllGood(replies)
    ensures var r := DestroyKind(objects, replies, kind);
            && r.status == Ok && r.objects == Others(objects, kind) && AllGood(r.replies)
            && (NoHandle !in replies ==> NoHandle !in r.replies)
    decreases |objects|
  {
    KindDestroyed(objects, replies, kind);
    var i := FirstOf(objects, kind);
    if i < |objects| {
      FlawlessKind(Without(objects, i), Rest(Rest(replies)), kind);
    }
  }

  /** Where no call fails, every kind is tried with status Ok. */
  lemma {:induction false} FlawlessKinds(objects: seq<Object>, replies: seq<Reply>, kinds: seq<Kind>)
    requires AllGood(replies)
    ensures var r := DestroyKinds(objects, replies, kinds);
            && r.statuses == seq(|kinds|, _ => Ok) && AllGood(r.replies)
            && (NoHandle !in replies ==> NoHandle !in r.replies)
    decreases |kinds|
  {
    if kinds != [] {
      FlawlessKind(objects, replies, kinds[0]);
      var first := DestroyKind(objects, replies, kinds[0]);
      FlawlessKinds(first.objects, first.replies, kinds[1..]);
    }
  }

  /** The clean-up goes on after every failure but that of an unsupported function: the search
      for the second kind is made whatever becomes of the first. */
  lemma OneFailureOnly(objects: seq<Object>, kind: Kind, other: Kind, rv: Rv)
    requires rv != Ok
    ensures var r := DestroyKinds(objects, [Bad(rv)], [kind, other]);
            if rv == FunctionNotSupported then r.statuses == [rv] && r.objects == objects
            else r.statuses == [rv, Ok] && r.objects == Others(objects, other)
  {
    assert DestroyKind(objects, [Bad(rv)], kind) == Destroyed(objects, [], rv);
    FlawlessKind(objects, [], other);
    assert [kind, other][1..] == [other] && [other][1..] == [];
    var later := DestroyKind(objects, [], other);
    assert DestroyKinds(later.objects, later.replies, []).statuses == [];
    assert DestroyKinds(objects, [], [other]).statuses == [Ok];
  }

  lemma {:induction false} WithoutOne(objects: seq<Object>, kind: Kind)
    requires FirstOf(objects, kind) < |objects|
    ensures Others(Without(objects, FirstOf(objects, kind)), kind) == Others(objects, kind)
    ensures Count(Without(objects, FirstOf(objects, kind)), kind) == Count(objects, kind) - 1
  {
    var i := FirstOf(objects, kind);
    if i == 0 {
      assert Without(objects, i) == objects[1..];
    } else {
      WithoutOne(objects[1..], kind);
      assert Without(objects, i) == [objects[0]] + Without(objects[1..], i - 1);
    }
  }

  lemma {:induction false} NoneLeft(objects: seq<Object>, kind: Kind)
    ensures FirstOf(objects, kind) == |objects| <==> Count(objects, kind) == 0
    ensures Count(objects, kind) == 0 ==> Others(objects, kind) == objects
  {
    if objects != [] {
      NoneLeft(objects[1..], kind);
    }
  }

  /** Destroying a kind leaves all other objects as they are, in order; when its status is Ok
      it leaves exactly those, however many objects of the kind there were. */
  lemma {:induction false} KindDestroyed(objects: seq<Object>, replies: seq<Reply>, kind: Kind)
    ensures var r := DestroyKind(objects, replies, kind);
            && Others(r.objects, kind) == Others(objects, kind)
            && Count(r.objects, kind) <= Count(objects, kind)
            && (r.status == Ok ==> r.objects == Others(objects, kind) && Count(r.objects, kind) == 0)
    decreases |objects|
  {
    var i := FirstOf(objects, kind);
    NoneLeft(objects, kind);
    if i < |objects| {
      WithoutOne(objects, kind);
      KindDestroyed(Without(objects, i), Rest(Rest(replies)), kind);
    }
  }

  /** Objects with the same others of one kind have the same number of every other kind. */
  lemma {:induction false} CountOfOthers(objects: seq<Object>, kind: Kind, counted: Kind)
    requires counted != kind
    ensures Count(Others(objects, kind), counted) == Count(objects, counted)
  {
    if objects != [] {
      CountOfOthers(objects[1..], kind, counted);
      if objects[0].kind != kind {
        assert Others(objects, kind)[1..] == Others(objects[1..], kind);
      }
    }
  }

  lemma OtherCounts(before: seq<Object>, after: seq<Object>, kind: Kind, counted: Kind)
    requires Others(before, kind) == Others(after, kind) && counted != kind
    ensures Count(before, counted) == Count(after, counted)
  {
    CountOfOthers(before, kind, counted);
    CountOfOthers(after, kind, counted);
  }

  /** One kind's destruction leaves another kind's number alone and never adds to its own. */
  lemma CountAfterKind(objects: seq<Object>, replies: seq<Reply>, destroyed: Kind, kind: Kind)
    ensures var r := DestroyKind(objects, replies, destroyed);
            && Count(r.objects, kind) <= Count(objects, kind)
            && (kind != destroyed ==> Count(r.objects, kind) == Count(objects, kind))
            && (kind == destroyed && r.status == Ok ==> Count(r.objects, kind) == 0)
  {
    KindDestroyed(objects, replies, destroyed);
    if kind != destroyed {
      OtherCounts(objects, DestroyKind(objects, replies, destroyed).objects, destroyed, kind);
    }
  }

  /** A whole clean-up: no kind gains objects, kinds not listed keep theirs, and a kind tried
      with status Ok has none left. */
  lemma {:induction false} KindsDestroyed(objects: seq<Object>, replies: seq<Reply>, kinds: seq<Kind>, kind: Kind)
    ensures var r := DestroyKinds(objects, replies, kinds);
            && Count(r.objects, kind) <= Count(objects, kind)
            && (kind !in kinds ==> Count(r.objects, kind) == Count(objects, kind))
            && (forall i :: 0 <= i < |r.statuses| && kinds[i] == kind && r.statuses[i] == Ok ==>
                Count(r.objects, kind) == 0)
            && (forall i :: 0 <= i < |r.statuses| - 1 ==> r.statuses[i] != FunctionNotSupported)
    decreases |kinds|
  {
    if kinds != [] {
      var first := DestroyKind(objects, replies, kinds[0]);
      CountAfterKind(objects, replies, kinds[0], kind);
      if first.status != FunctionNotSupported {
        KindsDestroyed(first.objects, first.replies, kinds[1..], kind);
      }
    }
  }

  /** All kinds are gone when every one was tried with status Ok. */
  lemma AllDestroyed(objects: seq<Object>, replies: seq<Reply>, kinds: seq<Kind>)
    requires DestroyKinds(objects, replies, kinds).statuses == seq(|kinds|, _ => Ok)
    ensures forall kind :: kind in kinds ==> Count(DestroyKinds(objects, replies, kinds).objects, kind) == 0
  {
    forall kind | kind in kinds
      ensures Count(DestroyKinds(objects, replies, kinds).objects, kind) == 0
    {
      KindsDestroyed(objects, replies, kinds, kind);
      var i :| 0 <= i < |kinds| && kinds[i] == kind;
      assert DestroyKinds(objects, replies, kinds).statuses[i] == Ok;
    }
  }

  /** The description of the clean-up, "Ok if all credentials were destroyed", for one token. */
  ghost predicate AsDescribed(objects: seq<Object>, replies: seq<Reply>, kinds: seq<Kind>) {
    var r := DestroyKinds(objects, replies, kinds);
    Returned(Ok, r.statuses) == Ok ==> forall kind :: kind in kinds ==> Count(r.objects, kind) == 0
  }

  /** Searches that all fail but the last. */
  function FailingBefore(n: nat): seq<Reply> {
    seq(n, _ => Bad(OtherError(5)))
  }

  lemma {:induction false} FailuresAreForgotten(objects: seq<Object>, kinds: seq<Kind>)
    requires kinds != [] && Count(objects, kinds[|kinds| - 1]) == 0
    ensures var r := DestroyKinds(objects, FailingBefore(|kinds| - 1), kinds);
            r.objects == objects && Returned(Ok, r.statuses) == Ok
    decreases |kinds|
  {
    var replies := FailingBefore(|kinds| - 1);
    if |kinds| == 1 {
      NoneLeft(objects, kinds[0]);
      assert DestroyKind(objects, replies, kinds[0]) == Destroyed(objects, [], Ok);
      assert DestroyKinds(objects, [], kinds[1..]).statuses == [];
    } else {
      assert Rest(replies) == FailingBefore(|kinds| - 2);
      assert DestroyKind(objects, replies, kinds[0]) == Destroyed(objects, Rest(replies), OtherError(5));
      FailuresAreForgotten(objects, kinds[1..]);
    }
  }

  /** The clean-up does what its description says, on every token, exactly when the list
      names one kind only: otherwise the failure of an earlier kind is forgotten. The default
      list names four. */
  lemma WhenAsDescribed(kinds: seq<Kind>)
    requires kinds != []
    ensures (forall objects, replies :: AsDescribed(objects, replies, kinds))
       <==> forall kind :: kind in kinds ==> kind == kinds[|kinds| - 1]
  {
    var last := kinds[|kinds| - 1];
    if kind :| kind in kinds && kind != last {
      var objects := [Object(1, kind)];
      assert Count(objects, last) == 0 && Count(objects, kind) == 1;
      FailuresAreForgotten(objects, kinds);
      assert !AsDescribed(objects, FailingBefore(|kinds| - 1), kinds);
    } else {
      forall objects, replies ensures AsDescribed(objects, replies, kinds) {
        LastIsDestroyed(objects, replies, kinds);
      }
    }
  }

  /** When the result is Ok, the whole list was tried and the last kind has no objects left. */
  lemma {:induction false} LastIsDestroyed(objects: seq<Object>, replies: seq<Reply>, kinds: seq<Kind>)
    requires kinds != []
    ensures var r := DestroyKinds(objects, replies, kinds);
            Returned(Ok, r.statuses) == Ok ==> |r.statuses| == |kinds| && Count(r.objects, kinds[|kinds| - 1]) == 0
    decreases |kinds|
  {
    var first := DestroyKind(objects, replies, kinds[0]);
    KindDestroyed(objects, replies, kinds[0]);
    if |kinds| > 1 {
      LastIsDestroyed(first.objects, first.replies, kinds[1..]);
      assert kinds[1..][|kinds| - 2] == kinds[|kinds| - 1];
    } else {
      assert DestroyKinds(first.objects, first.replies, kinds[1..]).statuses == [];
    }
  }
}
