/** DIDComm v1 envelopes under symbolic encryption: packing for mediators and opening hop by hop. */
module Envelope {
  import opened Wrappers

  type Key = string

  // ---- What an envelope is made of ----

  /** A sender's key, sealed to a recipient. */
  datatype SealedSender = SealedSender(to: Key, sender: Key)

  /** A content key, sealed to a recipient and bound to the sender if there is one. */
  datatype SealedKey = SealedKey(to: Key, sender: Option<Key>, contentKey: nat)

  datatype Recipient = Recipient(kid: Key, encryptedKey: SealedKey, sender: Option<SealedSender>, hasIv: bool)

  datatype Alg = Authcrypt | Anoncrypt | OtherAlg(name: string)

  datatype Enc = XChaCha20Poly1305 | OtherEnc(name: string)

  datatype Header = Header(enc: Enc, alg: Alg, recipients: seq<Recipient>)

  datatype Ciphertext = Ciphertext(contentKey: nat, aad: Header, plaintext: Plaintext)

  datatype Encrypted = Encrypted(header: Header, ciphertext: Ciphertext)

  datatype Plaintext = Message(id: nat) | Forward(to: Key, message: Encrypted)

  datatype Opened = Opened(plaintext: Plaintext, sender: Option<Key>, recipient: Key)

  datatype Error = UnsupportedAlg | UnsupportedEnc | NoRecipientKey | MissingSenderOrIv | DecryptionFailed | NoFirstRecipient

  // ---- Encryption ----

  function RecipientFor(key: Key, sender: Option<Key>, contentKey: nat): Recipient {
    Recipient(key, SealedKey(key, sender, contentKey),
              if sender.Some? then Some(SealedSender(key, sender.value)) else None, true)
  }

  function Encrypt(p: Plaintext, keys: seq<Key>, sender: Option<Key>, contentKey: nat): Encrypted {
    var recipients := seq(|keys|, i requires 0 <= i < |keys| => RecipientFor(keys[i], sender, contentKey));
    var header := Header(XChaCha20Poly1305, if sender.Some? then Authcrypt else Anoncrypt, recipients);
    Encrypted(header, Ciphertext(contentKey, header, p))
  }

  method EncryptDidcommV1Message(p: Plaintext, keys: seq<Key>, sender: Option<Key>, contentKey: nat) returns (e: Encrypted)
    ensures e == Encrypt(p, keys, sender, contentKey)
  {
    var recipients := [];
    for i := 0 to |keys|
      invariant recipients == seq(i, j requires 0 <= j < i => RecipientFor(keys[j], sender, contentKey))
    {
      var encryptedSender := None;
      if sender.Some? { encryptedSender := Some(SealedSender(keys[i], sender.value)); }
      recipients := recipients + [Recipient(keys[i], SealedKey(keys[i], sender, contentKey), encryptedSender, true)];
    }
    assert recipients == seq(|keys|, i requires 0 <= i < |keys| => RecipientFor(keys[i], sender, contentKey));
    var header := Header(XChaCha20Poly1305, if sender.Some? then Authcrypt else Anoncrypt, recipients);
    e := Encrypted(header, Ciphertext(contentKey, header, p));
  }

  // ---- Decryption ----

  /** Opening with the private half of the key that the last recipient names. */
  function Open(ours: set<Key>, e: Encrypted): Result<Opened, Error> {
    var recipients := e.header.recipients;
    if e.header.alg.OtherAlg? then Err(UnsupportedAlg)
    else if e.header.enc.OtherEnc? then Err(UnsupportedEnc)
    else if recipients == [] || recipients[|recipients| - 1].kid !in ours then Err(NoRecipientKey)
    else OpenAs(recipients[|recipients| - 1], e)
  }

  function OpenAs(r: Recipient, e: Encrypted): Result<Opened, Error> {
    var sender := if r.sender.Some? then Some(r.sender.value.sender) else None;
    if e.header.alg.Authcrypt? && (r.sender.None? || !r.hasIv) then Err(MissingSenderOrIv)
    else if r.sender.Some? && r.sender.value.to != r.kid then Err(DecryptionFailed)
    else if r.encryptedKey.to != r.kid || r.encryptedKey.sender != sender then Err(DecryptionFailed)
    else if e.ciphertext.contentKey != r.encryptedKey.contentKey || e.ciphertext.aad != e.header then Err(DecryptionFailed)
    else Ok(Opened(e.ciphertext.plaintext, sender, r.kid))
  }

  /** The scan over the recipients goes on after a match. */
  method DecryptDidcommV1Message(ours: set<Key>, e: Encrypted) returns (res: Result<Opened, Error>)
    ensures res == Open(ours, e)
  {
    if e.header.alg.OtherAlg? { return Err(UnsupportedAlg); }
    if e.header.enc.OtherEnc? { return Err(UnsupportedEnc); }
    var recipientKey: Option<Key> := None;
    var recipient: Option<Recipient> := None;
    var recipients := e.header.recipients;
    for i := 0 to |recipients|
      invariant recipientKey ==
                if i > 0 && recipients[i - 1].kid in ours then Some(recipients[i - 1].kid) else None
      invariant recipientKey.Some? ==> recipient == Some(recipients[i - 1])
    {
      recipientKey := if recipients[i].kid in ours then Some(recipients[i].kid) else None;
      if recipientKey.Some? { recipient := Some(recipients[i]); }
    }
    if recipientKey.None? || recipient.None? { return Err(NoRecipientKey); }
    var r := recipient.value;
    if e.header.alg.Authcrypt? && (r.sender.None? || !r.hasIv) { return Err(MissingSenderOrIv); }
    var sender: Option<Key> := None;
    if r.sender.Some? {
      if r.sender.value.to != recipientKey.value { return Err(DecryptionFailed); }
      sender := Some(r.sender.value.sender);
    }
    if r.encryptedKey.to != recipientKey.value || r.encryptedKey.sender != sender { return Err(DecryptionFailed); }
    var contentKey := r.encryptedKey.contentKey;
    if e.ciphertext.contentKey != contentKey || e.ciphertext.aad != e.header { return Err(DecryptionFailed); }
    res := Ok(Opened(e.ciphertext.plaintext, sender, recipientKey.value));
  }

  /** The header names the recipients in order, and says that the sender is authenticated exactly if there is one. */
  lemma HeaderDescribesTheEnvelope(p: Plaintext, keys: seq<Key>, sender: Option<Key>, contentKey: nat)
    ensures var h := Encrypt(p, keys, sender, contentKey).header;
      && h.enc == XChaCha20Poly1305 && h.alg == (if sender.None? then Anoncrypt else Authcrypt)
      && |h.recipients| == |keys| && forall i :: 0 <= i < |keys| ==>
           h.recipients[i].kid == keys[i] && h.recipients[i].hasIv && (h.recipients[i].sender.Some? <==> sender.Some?)
  {
  }

  /** What is opened is genuine: the algorithms are known, the last recipient's key is ours, its content key was sealed to it
      by the sender that is named, and the ciphertext was made with that content key under this very header. */
  lemma OpensExactlyWhen(ours: set<Key>, e: Encrypted, o: Opened)
    ensures Open(ours, e) == Ok(o) <==>
      && e.header.enc == XChaCha20Poly1305 && (e.header.alg == Authcrypt || e.header.alg == Anoncrypt)
      && e.header.recipients != []
      && var r := e.header.recipients[|e.header.recipients| - 1];
         && r.kid in ours && o.recipient == r.kid
         && r.encryptedKey == SealedKey(r.kid, o.sender, e.ciphertext.contentKey)
         && (o.sender.None? ==> r.sender.None?)
         && (o.sender.Some? ==> r.sender == Some(SealedSender(r.kid, o.sender.value)))
         && (e.header.alg == Authcrypt ==> o.sender.Some? && r.hasIv)
         && e.ciphertext.aad == e.header && o.plaintext == e.ciphertext.plaintext
  {
  }

  /** What fails does so for the first of these reasons. */
  lemma OpenFailsWith(ours: set<Key>, e: Encrypted, error: Error)
    requires Open(ours, e) == Err(error)
    ensures var recipients := e.header.recipients;
      if e.header.alg != Authcrypt && e.header.alg != Anoncrypt then error == UnsupportedAlg
      else if e.header.enc != XChaCha20Poly1305 then error == UnsupportedEnc
      else if recipients == [] || recipients[|recipients| - 1].kid !in ours then error == NoRecipientKey
      else
        var r := recipients[|recipients| - 1];
        error == if e.header.alg == Authcrypt && (r.sender == None || !r.hasIv) then MissingSenderOrIv else DecryptionFailed
  {
  }

  /** An envelope whose header was changed in any way is not opened. */
  lemma ChangedHeaderIsRefused(ours: set<Key>, theirs: set<Key>, e: Encrypted, header: Header)
    requires Open(ours, e).Ok? && header != e.header
    ensures Open(theirs, Encrypted(header, e.ciphertext)).Err?
  {
    OpensExactlyWhen(ours, e, Open(ours, e).value);
  }

  /** What was encrypted is opened, with its sender, exactly by those who hold the last listed key. */
  lemma OpenAfterEncrypt(p: Plaintext, keys: seq<Key>, sender: Option<Key>, contentKey: nat, ours: set<Key>)
    ensures Open(ours, Encrypt(p, keys, sender, contentKey)) ==
            if keys != [] && keys[|keys| - 1] in ours then Ok(Opened(p, sender, keys[|keys| - 1])) else Err(NoRecipientKey)
  {
    var e := Encrypt(p, keys, sender, contentKey);
    if keys != [] {
      assert e.header.recipients[|keys| - 1] == RecipientFor(keys[|keys| - 1], sender, contentKey);
    }
  }

  ghost predicate HoldsOne(ours: set<Key>, keys: seq<Key>) {
    exists k :: k in keys && k in ours
  }

  /** A holder of any listed key should be able to open the envelope (Aries RFC 0019, Unpack Message). An agent gets
      what it should exactly when it holds the last listed key, or none. */
  lemma UnpacksAsSpecifiedExactlyWhen(p: Plaintext, keys: seq<Key>, sender: Option<Key>, contentKey: nat, ours: set<Key>)
    ensures (Open(ours, Encrypt(p, keys, sender, contentKey)).Ok? <==> HoldsOne(ours, keys)) <==>
            (keys != [] && keys[|keys| - 1] in ours) || !HoldsOne(ours, keys)
  {
    OpenAfterEncrypt(p, keys, sender, contentKey, ours);
    if keys != [] && keys[|keys| - 1] in ours { assert keys[|keys| - 1] in keys; }
  }

  /** So every agent gets what it should exactly when all listed keys are the same. */
  lemma EveryHolderOpensExactlyWhen(p: Plaintext, keys: seq<Key>, sender: Option<Key>, contentKey: nat)
    ensures (forall ours: set<Key> :: HoldsOne(ours, keys) ==> Open(ours, Encrypt(p, keys, sender, contentKey)).Ok?) <==>
            forall i, j :: 0 <= i < |keys| && 0 <= j < |keys| ==> keys[i] == keys[j]
  {
    if forall ours: set<Key> :: HoldsOne(ours, keys) ==> Open(ours, Encrypt(p, keys, sender, contentKey)).Ok? {
      forall i | 0 <= i < |keys| ensures keys[i] == keys[|keys| - 1] {
        assert keys[i] in keys && HoldsOne({keys[i]}, keys);
        OpenAfterEncrypt(p, keys, sender, contentKey, {keys[i]});
      }
    }
    if forall i, j :: 0 <= i < |keys| && 0 <= j < |keys| ==> keys[i] == keys[j] {
      forall ours: set<Key> | HoldsOne(ours, keys) ensures Open(ours, Encrypt(p, keys, sender, contentKey)).Ok? {
        OpenAfterEncrypt(p, keys, sender, contentKey, ours);
        var k :| k in keys && k in ours;
        var i :| 0 <= i < |keys| && keys[i] == k;
        assert keys[i] == keys[|keys| - 1];
      }
    }
  }

  // ---- Packing for mediators ----

  /** The key that the forward message for the k-th routing key names. */
  function NextKey(keys: seq<Key>, routing: seq<Key>, k: nat): Key
    requires keys != [] && 0 < k <= |routing|
  {
    if k == 1 then keys[0] else routing[k - 2]
  }

  /** The envelope after the first k routing keys. */
  function Layer(m: Plaintext, keys: seq<Key>, routing: seq<Key>, sender: Option<Key>, contentKeys: nat -> nat, k: nat)
    : Encrypted
    requires k <= |routing| && (k > 0 ==> keys != [])
  {
    if k == 0 then Encrypt(m, keys, sender, contentKeys(0))
    else
      Encrypt(Forward(NextKey(keys, routing, k), Layer(m, keys, routing, sender, contentKeys, k - 1)),
              [routing[k - 1]], None, contentKeys(k))
  }

  /** The content key of each layer is drawn at random. */
  method PackMessage(m: Plaintext, keys: seq<Key>, routing: seq<Key>, sender: Option<Key>, contentKeys: nat -> nat)
    returns (res: Result<Encrypted, Error>)
    ensures res == if keys == [] && routing != [] then Err(NoFirstRecipient)
                   else Ok(Layer(m, keys, routing, sender, contentKeys, |routing|))
  {
    var recipientKeys := keys;
    var encrypted := EncryptDidcommV1Message(m, recipientKeys, sender, contentKeys(0));
    for k := 0 to |routing|
      invariant k > 0 ==> keys != [] && recipientKeys == [routing[k - 1]]
      invariant k == 0 ==> recipientKeys == keys
      invariant encrypted == Layer(m, keys, routing, sender, contentKeys, k)
    {
      if recipientKeys == [] { return Err(NoFirstRecipient); }
      var forward := Forward(recipientKeys[0], encrypted);
      recipientKeys := [routing[k]];
      encrypted := EncryptDidcommV1Message(forward, [routing[k]], None, contentKeys(k + 1));
    }
    res := Ok(encrypted);
  }

  // ---- Opening hop by hop ----

  /** One agent after another opens what it gets and hands on what a forward message holds. */
  datatype Journey = Arrived(content: Opened) | Stuck(hop: nat, error: Error) | OutOfHops

  function Travel(e: Encrypted, agents: seq<set<Key>>, hop: nat): Journey
    decreases |agents|
  {
    if agents == [] then OutOfHops
    else match Open(agents[0], e)
      case Err(error) => Stuck(hop, error)
      case Ok(o) => if o.plaintext.Forward? then Travel(o.plaintext.message, agents[1..], hop + 1) else Arrived(o)
  }

  /** The mediator of the k-th routing key finds a forward message, without a sender, that names the next key and
      holds the next envelope; nobody without that key finds anything. */
  lemma MediatorFindsTheNextHop(m: Plaintext, keys: seq<Key>, routing: seq<Key>, sender: Option<Key>,
                                contentKeys: nat -> nat, k: nat, ours: set<Key>)
    requires keys != [] && 0 < k <= |routing|
    ensures Open(ours, Layer(m, keys, routing, sender, contentKeys, k)) ==
            if routing[k - 1] in ours
            then Ok(Opened(Forward(NextKey(keys, routing, k), Layer(m, keys, routing, sender, contentKeys, k - 1)), None,
                           routing[k - 1]))
            else Err(NoRecipientKey)
  {
    OpenAfterEncrypt(Forward(NextKey(keys, routing, k), Layer(m, keys, routing, sender, contentKeys, k - 1)),
                     [routing[k - 1]], None, contentKeys(k), ours);
  }

  /** The key that a forward message names opens what it holds, except that the innermost one names the first recipient. */
  lemma NamedKeyOpensTheNextLayer(m: Plaintext, keys: seq<Key>, routing: seq<Key>, sender: Option<Key>,
                                  contentKeys: nat -> nat, k: nat)
    requires keys != [] && 0 < k <= |routing|
    ensures NextKey(keys, routing, k) == if k > 1 then routing[k - 2] else keys[0]
    ensures Open({NextKey(keys, routing, k)}, Layer(m, keys, routing, sender, contentKeys, k - 1)).Ok? <==>
            k > 1 || keys[|keys| - 1] == keys[0]
  {
    if k > 1 {
      MediatorFindsTheNextHop(m, keys, routing, sender, contentKeys, k - 1, {NextKey(keys, routing, k)});
    } else {
      OpenAfterEncrypt(m, keys, sender, contentKeys(0), {NextKey(keys, routing, k)});
    }
  }

  /** The mediators hold the routing keys, the last one first. */
  ghost predicate HoldRouting(agents: seq<set<Key>>, routing: seq<Key>) {
    && |agents| == |routing| + 1
    && forall i :: 0 <= i < |routing| ==> routing[|routing| - 1 - i] in agents[i]
  }

  /** A packed message comes through its mediators and arrives, with its sender, exactly when the last agent holds the
      last listed recipient key. */
  lemma {:induction false} MessageArrivesExactlyWhen(
    m: Plaintext, keys: seq<Key>, routing: seq<Key>, sender: Option<Key>, contentKeys: nat -> nat, k: nat,
    agents: seq<set<Key>>, hop: nat)
    requires m.Message? && keys != [] && k <= |routing| && HoldRouting(agents, routing[..k])
    ensures Travel(Layer(m, keys, routing, sender, contentKeys, k), agents, hop) ==
            if keys[|keys| - 1] in agents[k] then Arrived(Opened(m, sender, keys[|keys| - 1]))
            else Stuck(hop + k, NoRecipientKey)
    decreases k
  {
    if k == 0 {
      OpenAfterEncrypt(m, keys, sender, contentKeys(0), agents[0]);
    } else {
      assert routing[..k][k - 1] in agents[0];
      MediatorFindsTheNextHop(m, keys, routing, sender, contentKeys, k, agents[0]);
      forall i | 0 <= i < k - 1 ensures routing[..k - 1][k - 2 - i] in agents[1..][i] {
        assert routing[..k][k - 1 - (i + 1)] in agents[i + 1];
      }
      MessageArrivesExactlyWhen(m, keys, routing, sender, contentKeys, k - 1, agents[1..], hop + 1);
    }
  }

  /** A mediator without its key stops the journey where it is. */
  lemma {:induction false} MissingMediatorStopsTheJourney(
    m: Plaintext, keys: seq<Key>, routing: seq<Key>, sender: Option<Key>, contentKeys: nat -> nat, k: nat,
    agents: seq<set<Key>>, hop: nat, missing: nat)
    requires keys != [] && missing < k <= |routing| && |agents| > missing
    requires forall i :: 0 <= i < missing ==> routing[k - 1 - i] in agents[i]
    requires routing[k - 1 - missing] !in agents[missing]
    ensures Travel(Layer(m, keys, routing, sender, contentKeys, k), agents, hop) == Stuck(hop + missing, NoRecipientKey)
    decreases missing
  {
    MediatorFindsTheNextHop(m, keys, routing, sender, contentKeys, k, agents[0]);
    if missing > 0 {
      forall i | 0 <= i < missing - 1 ensures routing[k - 2 - i] in agents[1..][i] {
        assert routing[k - 1 - (i + 1)] in agents[i + 1];
      }
      MissingMediatorStopsTheJourney(m, keys, routing, sender, contentKeys, k - 1, agents[1..], hop + 1, missing - 1);
    }
  }

  /** The last forward message names the first recipient key, but with two different recipient keys its holder cannot
      open what it gets. */
  lemma FirstRecipientIsNamedButCannotOpen(m: Plaintext, first: Key, last: Key, mediator: Key, sender: Option<Key>,
                                           contentKeys: nat -> nat)
    requires m.Message? && first != last
    ensures NextKey([first, last], [mediator], 1) == first
    ensures Travel(Layer(m, [first, last], [mediator], sender, contentKeys, 1), [{mediator}, {first}], 0)
            == Stuck(1, NoRecipientKey)
  {
    assert [mediator][..1] == [mediator];
    MessageArrivesExactlyWhen(m, [first, last], [mediator], sender, contentKeys, 1, [{mediator}, {first}], 0);
  }
}
