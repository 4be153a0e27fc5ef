/** Stored secrets and webhook URLs of a notification channel: encryption with
    lazy migration of older formats, with or without a key. AES-GCM with base64
    is a parameter. */
module ChannelSecrets {
  import opened Keys

  type Secret = int

  const PREFIX := "enc:v1:"

  /** What decoding and decrypting a text gives; a short text is below the
      length of a nonce and a tag. */
  datatype Opened = BadEncoding | TooShort | AuthFailed | Plain(text: string)

  /** seal takes the text, the key and the random nonce. */
  datatype Cipher = Cipher(seal: (string, Secret, nat) -> string, open: (string, Secret) -> Opened)

  /** Decrypt(Encrypt(x, k), k) = x, for every nonce. */
  ghost predicate Faithful(c: Cipher) {
    forall x, k, n :: c.open(c.seal(x, k, n), k) == Plain(x)
  }

  predicate IsPrefixed(stored: string) {
    |stored| >= |PREFIX| && stored[..|PREFIX|] == PREFIX
  }

  datatype StoredState = Empty | Decrypted | Plaintext | Unreadable

  datatype Decoded = Decoded(value: string, state: StoredState)

  /** decodeStored. The secret column may hold unprefixed ciphertext of older
      versions, the URL column may not. */
  function DecodeStored(c: Cipher, stored: string, key: Option<Secret>, unprefixedMayBeCipher: bool): Decoded {
    if stored == "" then Decoded("", Empty)
    else if !IsPrefixed(stored) && (!unprefixedMayBeCipher || key.None?) then Decoded(stored, Plaintext)
    else if key.None? then Decoded("", Unreadable)
    else
      match c.open(if IsPrefixed(stored) then stored[|PREFIX|..] else stored, key.value)
      case BadEncoding => if IsPrefixed(stored) then Decoded("", Unreadable) else Decoded(stored, Plaintext)
      case TooShort => if IsPrefixed(stored) then Decoded("", Unreadable) else Decoded(stored, Plaintext)
      case AuthFailed => Decoded("", Unreadable)
      case Plain(text) => Decoded(text, Decrypted)
  }

  /** The stored text is the prefix and a ciphertext of text under the key. */
  predicate IsCipherOf(c: Cipher, stored: string, key: Secret, text: string) {
    |stored| >= 7 && stored[..7] == "enc:v1:" && c.open(stored[7..], key) == Plain(text)
  }

  predicate HasPrefix(stored: string) {
    |stored| >= 7 && stored[..7] == "enc:v1:"
  }

  /** How every stored text reads: encrypted texts with their key, plain texts
      as they are, and the rest not at all. A secret without the prefix may be
      ciphertext of an older version, a URL never is. */
  lemma StoredTextsRead(c: Cipher, stored: string, key: Option<Secret>)
    ensures stored == "" ==>
      DecodeStored(c, stored, key, true) == DecodeStored(c, stored, key, false) == Decoded("", Empty)
    ensures HasPrefix(stored) ==>
      forall mayBe :: DecodeStored(c, stored, key, mayBe) ==
        if key.Some? && c.open(stored[7..], key.value).Plain?
        then Decoded(c.open(stored[7..], key.value).text, Decrypted) else Decoded("", Unreadable)
    ensures stored != "" && !HasPrefix(stored) ==> DecodeStored(c, stored, key, false) == Decoded(stored, Plaintext)
    ensures stored != "" && !HasPrefix(stored) && key.None? ==>
      DecodeStored(c, stored, key, true) == Decoded(stored, Plaintext)
    ensures stored != "" && !HasPrefix(stored) && key.Some? ==>
      match c.open(stored, key.value)
      case Plain(text) => DecodeStored(c, stored, key, true) == Decoded(text, Decrypted)
      case AuthFailed => DecodeStored(c, stored, key, true) == Decoded("", Unreadable)
      case _ => DecodeStored(c, stored, key, true) == Decoded(stored, Plaintext)
  {
    assert IsPrefixed(stored) <==> HasPrefix(stored);
    assert |PREFIX| == 7;
  }

  /** What a reader of the column gets: the value and whether it is readable. */
  function Meaning(c: Cipher, stored: string, key: Option<Secret>, unprefixedMayBeCipher: bool): (string, bool) {
    var d := DecodeStored(c, stored, key, unprefixedMayBeCipher);
    (d.value, d.state != Unreadable)
  }

  function Encrypted(c: Cipher, plain: string, key: Secret, nonce: nat): string {
    PREFIX + c.seal(plain, key, nonce)
  }

  /** What is stored with a key reads back as what was stored. */
  lemma EncryptedReadsBack(c: Cipher, plain: string, key: Secret, nonce: nat, mayBe: bool)
    requires Faithful(c)
    ensures DecodeStored(c, Encrypted(c, plain, key, nonce), Some(key), mayBe) == Decoded(plain, Decrypted)
  {
    var e := Encrypted(c, plain, key, nonce);
    assert e[..|PREFIX|] == PREFIX && e[|PREFIX|..] == c.seal(plain, key, nonce);
  }

  // ----- The row, a loaded channel and a save -----

  datatype Row = Row(secret: string, url: string, other: string)

  /** A channel as a request holds it between its read and its save. */
  datatype Channel = Channel(
    secret: string, url: string, other: string,
    raw: string, secretUnreadable: bool, urlUnreadable: bool)

  /** GetChannel with decryptFields. */
  function Loaded(c: Cipher, row: Row, key: Option<Secret>): Channel {
    var s := DecodeStored(c, row.secret, key, true);
    var u := DecodeStored(c, row.url, key, false);
    Channel(s.value, u.value, row.other, row.secret, s.state == Unreadable, u.state == Unreadable)
  }

  /** The fields of the request; an empty url means no new URL. */
  datatype Edit = Edit(url: string, secret: Option<string>, other: string)

  function Edited(ch: Channel, e: Edit): Channel {
    ch.(url := if e.url != "" then e.url else ch.url,
        secret := if e.secret.Some? then e.secret.value else ch.secret,
        other := e.other)
  }

  /** The new secret column, or None when the save is refused. stored is the
      secret column as an earlier statement of the save read it; only a process
      without a key reads it, for a new secret. */
  function SecretColumn(
    c: Cipher, stored: string, row: Row, ch: Channel, secretChanged: bool, key: Option<Secret>, nonce: nat)
    : Option<string>
  {
    if secretChanged then
      if ch.secret == "" then Some("")
      else if key.Some? then Some(Encrypted(c, ch.secret, key.value, nonce))
      else if stored == ch.secret && !IsPrefixed(stored) then Some(row.secret)
      else None
    else if key.Some? && !ch.secretUnreadable && ch.secret != "" && ch.raw != "" && !IsPrefixed(ch.raw) then
      // CASE WHEN secret = raw THEN new ELSE secret END
      Some(if row.secret == ch.raw then Encrypted(c, ch.secret, key.value, nonce) else row.secret)
    else Some(row.secret)
  }

  function UrlColumn(c: Cipher, row: Row, ch: Channel, key: Option<Secret>, nonce: nat): string {
    if ch.urlUnreadable && ch.url == "" then row.url
    else if key.None? || ch.url == "" then ch.url
    else Encrypted(c, ch.url, key.value, nonce)
  }

  /** UpdateChannel; a refused save changes nothing. */
  function Saved(
    c: Cipher, stored: string, row: Row, ch: Channel, secretChanged: bool, key: Option<Secret>, nonce: nat): Row
  {
    var secret := SecretColumn(c, stored, row, ch, secretChanged, key, nonce);
    if secret.None? then row else Row(secret.value, UrlColumn(c, row, ch, key, nonce + 1), ch.other)
  }

  /** What a save that is not refused stores, column by column. row is the row
      that the update finds. */
  ghost predicate StoresExactly(
    c: Cipher, row: Row, ch: Channel, secretChanged: bool, key: Option<Secret>, next: Row)
  {
    // Name, enabled, filters and format.
    && next.other == ch.other
    // The URL.
    && (ch.url != "" && key.Some? ==> IsCipherOf(c, next.url, key.value, ch.url))
    && (ch.url != "" && key.None? ==> next.url == ch.url)
    && (ch.url == "" ==> next.url == if ch.urlUnreadable then row.url else "")
    // The secret.
    && (secretChanged && ch.secret == "" ==> next.secret == "")
    && (secretChanged && ch.secret != "" && key.Some? ==> IsCipherOf(c, next.secret, key.value, ch.secret))
    && (secretChanged && ch.secret != "" && key.None? ==> next.secret == row.secret)
    && (!secretChanged ==>
          if key.Some? && !ch.secretUnreadable && ch.secret != ""
             && ch.raw != "" && !HasPrefix(ch.raw) && row.secret == ch.raw
          then IsCipherOf(c, next.secret, key.value, ch.secret)
          else next.secret == row.secret)
  }

  /** A save is refused exactly for a new secret without a key that is not the
      stored plain text; any other save stores all columns of the request. */
  lemma SaveIsExact(
    c: Cipher, stored: string, row: Row, ch: Channel, secretChanged: bool, key: Option<Secret>, nonce: nat)
    requires Faithful(c)
    ensures var refused := secretChanged && ch.secret != "" && key.None? && (stored != ch.secret || HasPrefix(stored));
      var next := Saved(c, stored, row, ch, secretChanged, key, nonce);
      if refused then next == row else StoresExactly(c, row, ch, secretChanged, key, next)
  {
    assert |PREFIX| == 7;
    assert forall s :: IsPrefixed(s) <==> HasPrefix(s);
    if key.Some? {
      SealedIsCipherOf(c, ch.url, key.value, nonce + 1);
      SealedIsCipherOf(c, ch.secret, key.value, nonce);
    }
  }

  lemma SealedIsCipherOf(c: Cipher, text: string, key: Secret, nonce: nat)
    requires Faithful(c)
    ensures IsCipherOf(c, Encrypted(c, text, key, nonce), key, text)
  {
    var e := Encrypted(c, text, key, nonce);
    assert |PREFIX| == 7 && e[..7] == PREFIX && e[7..] == c.seal(text, key, nonce);
  }

  /** A request keeps what it loaded, apart from the fields of its edit. */
  lemma LoadAndEdit(c: Cipher, row: Row, key: Option<Secret>, e: Edit)
    ensures var ch := Edited(Loaded(c, row, key), e);
      && ch.other == e.other && ch.raw == row.secret
      && (e.url != "" ==> ch.url == e.url)
      && (e.url == "" ==> ch.url == DecodeStored(c, row.url, key, false).value)
      && (e.secret.Some? ==> ch.secret == e.secret.value)
      && (e.secret.None? ==> ch.secret == DecodeStored(c, row.secret, key, true).value)
      && (ch.secretUnreadable <==> DecodeStored(c, row.secret, key, true).state == Unreadable)
      && (ch.urlUnreadable <==> DecodeStored(c, row.url, key, false).state == Unreadable)
  {}

  // ----- Interleaved requests -----

  /** A request with the key of the process that serves it. stored is the secret
      column when the request read it for its save. */
  datatype Request = Request(key: Option<Secret>, channel: Channel, stored: Option<string>)

  /** One channel row and the requests that have loaded the channel. Processes
      with different keys, or without a key, may serve at the same time, as in
      a rolling restart. */
  datatype State = State(row: Row, requests: map<nat, Request>)

  datatype Step =
    | Load(p: nat, key: Option<Secret>)
    | ReadStored(p: nat)
    | Save(p: nat, edit: Edit, nonce: nat)

  function Apply(c: Cipher, s: State, step: Step): State {
    match step
    case Load(p, key) => s.(requests := s.requests[p := Request(key, Loaded(c, s.row, key), None)])
    case ReadStored(p) =>
      if p in s.requests then s.(requests := s.requests[p := s.requests[p].(stored := Some(s.row.secret))]) else s
    case Save(p, e, nonce) =>
      if p !in s.requests || !MaySave(s.requests[p], e) then s
      else State(SavedBy(c, s.row, s.requests[p], e, nonce), s.requests - {p})
  }

  /** A process without a key has read the stored secret before it saves a new
      one. */
  predicate MaySave(r: Request, e: Edit) {
    e.secret.Some? && e.secret.value != "" && r.key.None? ==> r.stored.Some?
  }

  function SavedBy(c: Cipher, row: Row, r: Request, e: Edit, nonce: nat): Row {
    Saved(c, if r.stored.Some? then r.stored.value else "", row, Edited(r.channel, e), e.secret.Some?, r.key, nonce)
  }

  function Run(c: Cipher, s: State, steps: seq<Step>): State
    decreases |steps|
  {
    if steps == [] then s else Run(c, Apply(c, s, steps[0]), steps[1..])
  }

  /** A request holds what its process loaded: the secret is what the raw column
      value means under its key, an unreadable URL is empty, and a process
      without a key reads no encrypted URL. */
  ghost predicate HoldsLoaded(c: Cipher, r: Request) {
    && (r.channel.secret, !r.channel.secretUnreadable) == Meaning(c, r.channel.raw, r.key, true)
    && (r.channel.urlUnreadable ==> r.channel.url == "")
    && (r.key.None? && !r.channel.urlUnreadable ==> !IsPrefixed(r.channel.url))
  }

  ghost predicate AllLoaded(c: Cipher, s: State) {
    forall p :: p in s.requests ==> HoldsLoaded(c, s.requests[p])
  }

  // ----- A save of other fields keeps the secret -----

  lemma SaveKeepsSecret(c: Cipher, s: State, p: nat, e: Edit, nonce: nat)
    requires Faithful(c) && p in s.requests && HoldsLoaded(c, s.requests[p]) && e.secret.None?
    ensures var r, next := s.requests[p], Apply(c, s, Save(p, e, nonce));
      && Meaning(c, next.row.secret, r.key, true) == Meaning(c, s.row.secret, r.key, true)
      && (s.row.secret != r.channel.raw || r.key.None? ==> next.row.secret == s.row.secret)
  {
    var r := s.requests[p];
    if r.key.Some? {
      EncryptedReadsBack(c, r.channel.secret, r.key.value, nonce, true);
    }
  }

  /** Every save without a new secret leaves the secret as its process reads
      it, and a secret that another request changed meanwhile stays byte for
      byte. A process without a key never writes the column. */
  ghost predicate SecretIsKept(c: Cipher, s: State, steps: seq<Step>)
    decreases |steps|
  {
    steps != [] ==>
      var next := Apply(c, s, steps[0]);
      && (steps[0].Save? && steps[0].p in s.requests && steps[0].edit.secret.None? ==>
            var r := s.requests[steps[0].p];
            && Meaning(c, next.row.secret, r.key, true) == Meaning(c, s.row.secret, r.key, true)
            && (s.row.secret != r.channel.raw || r.key.None? ==> next.row.secret == s.row.secret))
      && SecretIsKept(c, next, steps[1..])
  }

  lemma {:induction false} SavesNeverTouchTheSecret(c: Cipher, s: State, steps: seq<Step>)
    requires Faithful(c) && AllLoaded(c, s)
    ensures SecretIsKept(c, s, steps)
    decreases |steps|
  {
    if steps != [] {
      if steps[0].Save? && steps[0].p in s.requests && steps[0].edit.secret.None? {
        SaveKeepsSecret(c, s, steps[0].p, steps[0].edit, steps[0].nonce);
      }
      SavesNeverTouchTheSecret(c, Apply(c, s, steps[0]), steps[1..]);
    }
  }

  // ----- A process without a key confirms a secret that may be gone -----

  /** Without a key the save of the stored plain secret succeeds and leaves the
      column as it is at that moment: it holds the secret of the request exactly
      when nobody changed it since the read. */
  lemma KeylessSaveKeepsTheColumn(c: Cipher, s: State, p: nat, e: Edit, nonce: nat)
    requires p in s.requests && s.requests[p].key.None? && e.secret.Some? && e.secret.value != ""
    requires s.requests[p].stored == e.secret && !IsPrefixed(e.secret.value)
    ensures var r, next := s.requests[p], Apply(c, s, Save(p, e, nonce));
      && SecretColumn(c, r.stored.value, s.row, Edited(r.channel, e), true, None, nonce).Some?
      && next.row.secret == s.row.secret
      && (next.row.secret == e.secret.value <==> s.row.secret == r.stored.value)
  {}

  /** The run: a request without a key reads the stored secret, another process
      with the key changes it, and the first request saves the old one with
      success while the column holds the new one. */
  lemma ConfirmedSecretIsGone(c: Cipher, row: Row, key: Secret, secret: string, a: string, b: string)
    requires Faithful(c) && row.secret != "" && !IsPrefixed(row.secret) && secret != ""
    ensures var t := [Load(0, None), ReadStored(0), Load(1, Some(key)),
                      Save(1, Edit("", Some(secret), a), 0), Save(0, Edit("", Some(row.secret), b), 2)];
      var last := Run(c, State(row, map[]), t);
      last.row.other == b && Meaning(c, last.row.secret, Some(key), true) == (secret, true)
  {
    var first := [Load(0, None), ReadStored(0), Load(1, Some(key))];
    var change, confirm := Save(1, Edit("", Some(secret), a), 0), Save(0, Edit("", Some(row.secret), b), 2);
    var s0 := State(row, map[]);
    assert first + [change, confirm] ==
      [Load(0, None), ReadStored(0), Load(1, Some(key)), change, confirm];
    RunSplits(c, s0, first, [change, confirm]);
    assert first[1..] == [first[1], first[2]];
    RunTwo(c, Apply(c, s0, first[0]), first[1], first[2]);
    var r0 := Request(None, Loaded(c, row, None), Some(row.secret));
    var r1 := Request(Some(key), Loaded(c, row, Some(key)), None);
    var s3 := Apply(c, Apply(c, Apply(c, s0, first[0]), first[1]), first[2]);
    assert s3 == State(row, map[0 := r0, 1 := r1]);
    RunTwo(c, s3, change, confirm);
    var s4 := Apply(c, s3, change);
    EncryptedReadsBack(c, secret, key, 0, true);
    assert s4.row.secret == Encrypted(c, secret, key, 0) && s4.requests[0] == r0;
    KeylessSaveKeepsTheColumn(c, s4, 0, Edit("", Some(row.secret), b), 2);
  }

  lemma RunTwo(c: Cipher, s: State, a: Step, b: Step)
    ensures Run(c, s, [a, b]) == Apply(c, Apply(c, s, a), b)
  {
    assert [a, b][1..] == [b];
    RunOne(c, Apply(c, s, a), b);
  }

  // ----- A save of other fields writes its loaded URL back -----

  /** The column that the save of a loaded URL writes means that URL, under the
      key of the process, and under any key for a process without one. */
  lemma WrittenUrlReadsBack(c: Cipher, row: Row, r: Request, reader: Option<Secret>, nonce: nat)
    requires Faithful(c) && HoldsLoaded(c, r) && !r.channel.urlUnreadable && (r.key.Some? ==> reader == r.key)
    ensures Meaning(c, UrlColumn(c, row, r.channel, r.key, nonce), reader, false) == (r.channel.url, true)
  {
    if r.key.Some? {
      EncryptedReadsBack(c, r.channel.url, r.key.value, nonce, false);
    }
  }

  /** A save without a new URL keeps what the URL column means to its process
      exactly when that is still the URL that was loaded, or the URL could not
      be read. */
  lemma UrlSaveKeepsMeaning(c: Cipher, s: State, p: nat, e: Edit, nonce: nat)
    requires Faithful(c) && p in s.requests && HoldsLoaded(c, s.requests[p]) && e.url == "" && e.secret == None
    ensures var r, next := s.requests[p], Apply(c, s, Save(p, e, nonce));
      Meaning(c, next.row.url, r.key, false) == Meaning(c, s.row.url, r.key, false) <==>
        r.channel.urlUnreadable || Meaning(c, s.row.url, r.key, false) == (r.channel.url, true)
  {
    var r := s.requests[p];
    if !r.channel.urlUnreadable {
      WrittenUrlReadsBack(c, s.row, r, r.key, nonce + 1);
    }
  }

  /** The run that loses an update: two requests load the channel, one saves a
      new URL, the other one saves other fields and brings the old URL back. */
  lemma UrlChangeIsLost(c: Cipher, row: Row, key: Secret, url: string, a: string, b: string)
    requires Faithful(c) && url != "" && Meaning(c, row.url, Some(key), false).1
    ensures var loads := [Load(0, Some(key)), Load(1, Some(key))];
      var change := Save(1, Edit(url, None, a), 0);
      var other := Save(0, Edit("", None, b), 2);
      && Meaning(c, Run(c, State(row, map[]), loads + [change]).row.url, Some(key), false) == (url, true)
      && Meaning(c, Run(c, State(row, map[]), loads + [change, other]).row.url, Some(key), false)
           == Meaning(c, row.url, Some(key), false)
  {
    var loads := [Load(0, Some(key)), Load(1, Some(key))];
    var change := Save(1, Edit(url, None, a), 0);
    var other := Save(0, Edit("", None, b), 2);
    var r := Request(Some(key), Loaded(c, row, Some(key)), None);
    var s2 := State(row, map[0 := r, 1 := r]);
    RunSplits(c, State(row, map[]), loads, [change]);
    RunSplits(c, State(row, map[]), loads, [change, other]);
    assert Run(c, State(row, map[]), loads) == s2 by {
      assert loads[1..] == [loads[1]];
      RunOne(c, Apply(c, State(row, map[]), loads[0]), loads[1]);
    }
    RunOne(c, s2, change);
    var s3 := Apply(c, s2, change);
    EncryptedReadsBack(c, url, key, 1, false);
    assert [change, other][1..] == [other];
    RunOne(c, s3, other);
    assert s3.requests[0] == r;
    WrittenUrlReadsBack(c, s3.row, r, Some(key), 3);
  }

  lemma RunOne(c: Cipher, s: State, step: Step)
    ensures Run(c, s, [step]) == Apply(c, s, step)
  {
    assert [step][1..] == [];
    assert Run(c, Apply(c, s, step), []) == Apply(c, s, step);
  }

  lemma {:induction false} RunSplits(c: Cipher, s: State, a: seq<Step>, b: seq<Step>)
    ensures Run(c, s, a + b) == Run(c, Run(c, s, a), b)
    decreases |a|
  {
    if a == [] {
      assert a + b == b;
    } else {
      assert (a + b)[1..] == a[1..] + b;
      RunSplits(c, Apply(c, s, a[0]), a[1..], b);
    }
  }

  // ----- Removing and restoring the key -----

  /** The processes have the key or none, and saves leave secret and URL alone. */
  predicate OtherFieldsOnly(steps: seq<Step>, key: Secret) {
    forall k :: 0 <= k < |steps| ==>
      && (steps[k].Load? ==> steps[k].key == None || steps[k].key == Some(key))
      && (steps[k].Save? ==> steps[k].edit.url == "" && steps[k].edit.secret == None)
  }

  /** A request of a process with the key or with none whose loaded URL is what
      the column means under the key, or could not be read. */
  ghost predicate RequestReady(c: Cipher, row: Row, r: Request, key: Secret) {
    && HoldsLoaded(c, r) && (r.key == None || r.key == Some(key))
    && (r.channel.urlUnreadable || Meaning(c, row.url, Some(key), false) == (r.channel.url, true))
  }

  ghost predicate Ready(c: Cipher, s: State, key: Secret) {
    forall p :: p in s.requests ==> RequestReady(c, s.row, s.requests[p], key)
  }

  ghost predicate SameMeaning(c: Cipher, a: Row, b: Row, key: Secret) {
    && Meaning(c, a.secret, Some(key), true) == Meaning(c, b.secret, Some(key), true)
    && Meaning(c, a.url, Some(key), false) == Meaning(c, b.url, Some(key), false)
  }

  lemma StepKeepsMeaning(c: Cipher, s: State, step: Step, key: Secret)
    requires Faithful(c) && Ready(c, s, key) && OtherFieldsOnly([step], key)
    ensures Ready(c, Apply(c, s, step), key) && SameMeaning(c, s.row, Apply(c, s, step).row, key)
  {
    assert [step][0] == step;
    if step.Save? && step.p in s.requests {
      var r := s.requests[step.p];
      assert RequestReady(c, s.row, r, key);
      SaveKeepsSecret(c, s, step.p, step.edit, step.nonce);
      if !r.channel.urlUnreadable {
        WrittenUrlReadsBack(c, s.row, r, Some(key), step.nonce + 1);
      }
      assert SameMeaning(c, s.row, Apply(c, s, step).row, key);
    }
  }

  /** Whichever processes have the key and whichever have none at each moment,
      and whatever other fields their interleaved requests save, the secret and
      the URL mean the same under the key as before. */
  lemma {:induction false} KeyRemovalLosesNothing(c: Cipher, s: State, steps: seq<Step>, key: Secret)
    requires Faithful(c) && Ready(c, s, key) && OtherFieldsOnly(steps, key)
    ensures SameMeaning(c, s.row, Run(c, s, steps).row, key)
    decreases |steps|
  {
    if steps != [] {
      assert OtherFieldsOnly([steps[0]], key);
      StepKeepsMeaning(c, s, steps[0], key);
      KeyRemovalLosesNothing(c, Apply(c, s, steps[0]), steps[1..], key);
    }
  }

  // ----- The repository -----

  datatype SaveResult = Ok | NeedsKey

  class ChannelRepository {
    const cipher: Cipher
    const key: Option<Secret>
    var row: Row

    constructor (cipher: Cipher, key: Option<Secret>, row: Row)
      ensures this.cipher == cipher && this.key == key && this.row == row
    {
      this.cipher, this.key, this.row := cipher, key, row;
    }

    method GetChannel() returns (ch: Channel)
      ensures ch == Loaded(cipher, row, key)
      ensures ch.secretUnreadable ==> ch.secret == ""
      ensures ch.urlUnreadable ==> ch.url == ""
    {
      ch := Channel(row.secret, row.url, row.other, row.secret, false, false);
      var s := DecodeStored(cipher, ch.secret, key, true);
      ch := ch.(secret := s.value, secretUnreadable := s.state == Unreadable);
      var u := DecodeStored(cipher, ch.url, key, false);
      ch := ch.(url := u.value, urlUnreadable := u.state == Unreadable);
    }

    /** Checks first: a refused request changes nothing. between is the row as
        other processes leave it between the read of the stored secret and the
        update. */
    method UpdateChannel(ch: Channel, secretChanged: bool, nonce: nat, between: Row) returns (result: SaveResult)
      modifies this
      ensures result == NeedsKey <==>
        secretChanged && ch.secret != "" && key.None? && (ch.secret != old(row).secret || IsPrefixed(old(row).secret))
      ensures result == NeedsKey ==> row == old(row)
      ensures result == Ok && Faithful(cipher) ==> StoresExactly(cipher, between, ch, secretChanged, key, row)
      ensures result == Ok ==> row.other == ch.other
      ensures result == Ok ==> row == Saved(cipher, old(row).secret, between, ch, secretChanged, key, nonce)
      ensures Faithful(cipher) && secretChanged && key.Some? ==>
        Meaning(cipher, row.secret, key, true) == (ch.secret, true)
      ensures result == Ok && secretChanged && key.None? && ch.secret != "" ==>
        (row.secret == ch.secret <==> between.secret == old(row).secret)
    {
      var newSecret: Option<string> := None;
      var migrate := false;
      if secretChanged {
        if ch.secret == "" {
          newSecret := Some("");
        } else if key.None? {
          var stored := row.secret;
          if !(stored == ch.secret && !IsPrefixed(stored)) {
            return NeedsKey;
          }
        } else {
          newSecret := Some(Encrypted(cipher, ch.secret, key.value, nonce));
          if Faithful(cipher) { EncryptedReadsBack(cipher, ch.secret, key.value, nonce, true); }
        }
      } else {
        migrate := key.Some? && !ch.secretUnreadable && ch.secret != "" && ch.raw != "" && !IsPrefixed(ch.raw);
      }
      row := between;
      var url := row.url;
      if !ch.urlUnreadable || ch.url != "" {
        url := if key.None? || ch.url == "" then ch.url else Encrypted(cipher, ch.url, key.value, nonce + 1);
      }
      var secret := if newSecret.Some? then newSecret.value
        else if migrate && row.secret == ch.raw then Encrypted(cipher, ch.secret, key.value, nonce) else row.secret;
      if Faithful(cipher) { SaveIsExact(cipher, old(row).secret, between, ch, secretChanged, key, nonce); }
      row := Row(secret, url, ch.other);
      return Ok;
    }
  }
}
