/** The provider's state machine over its fields `_name`, `_seed`, `_salt`, `_aes`
    and `_disposed`, as pure transition functions, with the properties of
    `CreateKey`, `DropAesInstance`, `Dispose` and `Initialize`. */
module Lifecycle {
  import opened Common
  import opened Library
  import opened KeyDerivation
  import opened Salt
  import opened Envelope
  import opened HexCodec

  /** The provider's fields; `aes` is the current AES instance, if any. */
  datatype ProviderState = ProviderState(
    name: Option<string>,
    seed: Option<string>,
    salt: Option<string>,
    aes: Option<KeyMaterial>,
    disposed: bool)

  /** A freshly constructed provider. */
  const Initial: ProviderState := ProviderState(None, None, None, None, false)

  /** How an operation ended, and the fields afterwards. */
  datatype Step = Step(outcome: Outcome, state: ProviderState)

  const NoSeedSupplied: string := "No key derivation seed supplied"
  const NoSaltSupplied: string := "No key derivation salt supplied"
  const NoSeedProvided: string := "No key derivation seed provided"
  const NoSaltProvided: string := "No key derivation salt provided"
  /** The message of `Rfc2898DeriveBytes` for a salt under eight bytes. */
  const SaltTooShort: string := "Salt is not at least eight bytes."

  /** `DropAesInstance`: swap null into `_aes`; disposal errors are swallowed. */
  function DropAes(s: ProviderState): ProviderState {
    s.(aes := None)
  }

  /** `CreateKey(seed, salt)`: reject null or empty arguments, drop the current
      instance, prepare the salt, derive and install a new key and IV. */
  function CreateKeyStep(p: Primitives, s: ProviderState, seed: Option<string>, salt: Option<string>): (r: Step)
    ensures r.state.name == s.name && r.state.seed == s.seed && r.state.salt == s.salt
    ensures r.state.disposed == s.disposed
    ensures r.outcome.Completed? ==> r.state.aes.Some? && ValidKeyMaterial(r.state.aes.value)
    ensures r.outcome.Threw? ==> r.outcome.error.ArgumentError?
  {
    if IsNullOrEmpty(seed) then Step(Threw(ArgumentError(NoSeedSupplied)), s)
    else if IsNullOrEmpty(salt) then Step(Threw(ArgumentError(NoSaltSupplied)), s)
    else
      var dropped := DropAes(s);
      var binarySalt := PrepareSalt(p, salt);
      if |binarySalt| < MinSaltBytes then Step(Threw(ArgumentError(SaltTooShort)), dropped)
      else Step(Completed, dropped.(aes := Some(DeriveKeyMaterial(p, seed.value, binarySalt))))
  }

  /** `Dispose(disposing)`: on the first call drop the instance, clear `_aes`
      and set `_disposed`; afterwards do nothing. */
  function DisposeStep(s: ProviderState): (r: ProviderState)
    ensures r.disposed
    ensures r.name == s.name && r.seed == s.seed && r.salt == s.salt
    ensures s.disposed ==> r == s
    ensures !s.disposed ==> r.aes.None?
  {
    if s.disposed then s else s.(aes := None, disposed := true)
  }

  /** `Initialize(name, config)`: store the name and the two entries first, then
      reject a null or blank seed or salt, then create the key. */
  function InitializeStep(p: Primitives, s: ProviderState, name: Option<string>, seed: Option<string>, salt: Option<string>): (r: Step)
    ensures r.state.name == name && r.state.seed == seed && r.state.salt == salt
    ensures r.state.disposed == s.disposed
    ensures r.outcome.Threw? ==> r.outcome.error.ConfigurationError? || r.outcome.error.ArgumentError?
  {
    var stored := s.(name := name, seed := seed, salt := salt);
    if IsNullOrWhiteSpace(seed) then Step(Threw(ConfigurationError(NoSeedProvided)), stored)
    else if IsNullOrWhiteSpace(salt) then Step(Threw(ConfigurationError(NoSaltProvided)), stored)
    else CreateKeyStep(p, stored, seed, salt)
  }

  // ---------------------------------------------------------------------------
  // CreateKey

  /** A null or empty seed or salt throws `ArgumentException` before the current
      instance is dropped, so nothing changes. */
  lemma CreateKeyRejectsEmpty(p: Primitives, s: ProviderState, seed: Option<string>, salt: Option<string>)
    requires IsNullOrEmpty(seed) || IsNullOrEmpty(salt)
    ensures CreateKeyStep(p, s, seed, salt).outcome.Threw?
    ensures CreateKeyStep(p, s, seed, salt).outcome.error.ArgumentError?
    ensures CreateKeyStep(p, s, seed, salt).state == s
  {
  }

  /** With both arguments present, `CreateKey` succeeds exactly when the prepared
      salt has at least eight bytes. On success `_aes` holds a 256-bit key and a
      128-bit IV, together the first 48 bytes of the PBKDF2 stream; on failure
      the old instance is already gone. No other field changes. */
  lemma CreateKeyResult(p: Primitives, s: ProviderState, seed: Option<string>, salt: Option<string>)
    requires !IsNullOrEmpty(seed) && !IsNullOrEmpty(salt)
    ensures var r := CreateKeyStep(p, s, seed, salt);
            && (r.outcome == Completed <==> |PrepareSalt(p, salt)| >= MinSaltBytes)
            && r.state.(aes := s.aes) == s
            && (r.outcome == Completed ==>
                  && r.state.aes.Some?
                  && ValidKeyMaterial(r.state.aes.value)
                  && r.state.aes.value.key + r.state.aes.value.iv
                     == StreamBytes(p, seed.value, PrepareSalt(p, salt), 0, KeyBytes + BlockBytes))
            && (r.outcome != Completed ==>
                  r.outcome == Threw(ArgumentError(SaltTooShort)) && r.state.aes.None?)
  {
  }

  /** Equal (seed, salt) pairs give equal outcomes and equal key and IV,
      whatever the provider held before and whether or not it was disposed. */
  lemma CreateKeyDeterministic(p: Primitives, s1: ProviderState, s2: ProviderState, seed: Option<string>, salt: Option<string>)
    ensures CreateKeyStep(p, s1, seed, salt).outcome == CreateKeyStep(p, s2, seed, salt).outcome
    ensures CreateKeyStep(p, s1, seed, salt).outcome == Completed ==>
              CreateKeyStep(p, s1, seed, salt).state.aes == CreateKeyStep(p, s2, seed, salt).state.aes
  {
  }

  // ---------------------------------------------------------------------------
  // DropAesInstance and Dispose

  /** `DropAesInstance` always leaves no instance and changes nothing else. */
  lemma DropAesClears(s: ProviderState)
    ensures DropAes(s).aes.None?
    ensures DropAes(s).(aes := s.aes) == s
  {
  }

  /** The first `Dispose` clears `_aes` and sets `_disposed`; every later call
      changes nothing, so disposing twice is disposing once. */
  lemma DisposeIdempotent(s: ProviderState)
    ensures !s.disposed ==> DisposeStep(s) == s.(aes := None, disposed := true)
    ensures s.disposed ==> DisposeStep(s) == s
    ensures DisposeStep(DisposeStep(s)) == DisposeStep(s)
    ensures DisposeStep(s).disposed
  {
  }

  /** `CreateKey` never reads `_disposed`: a disposed provider can be re-keyed,
      stays marked disposed, and a later `Dispose` then leaves the new key in
      place. */
  lemma RekeyAfterDispose(p: Primitives, s: ProviderState, seed: string, salt: string)
    requires s.disposed && seed != "" && salt != ""
    requires |PrepareSalt(p, Some(salt))| >= MinSaltBytes
    ensures var r := CreateKeyStep(p, s, Some(seed), Some(salt));
            && r.outcome == Completed
            && r.state.disposed
            && r.state.aes == Some(DeriveKeyMaterial(p, seed, PrepareSalt(p, Some(salt))))
            && DisposeStep(r.state).aes == r.state.aes
  {
  }

  // ---------------------------------------------------------------------------
  // Initialize

  /** `Initialize` stores the name and both entries whatever happens next. */
  lemma InitializeStoresEntries(p: Primitives, s: ProviderState, name: Option<string>, seed: Option<string>, salt: Option<string>)
    ensures var r := InitializeStep(p, s, name, seed, salt);
            r.state.name == name && r.state.seed == seed && r.state.salt == salt
            && r.state.disposed == s.disposed
  {
  }

  /** A null or blank seed or salt throws `ConfigurationErrorsException` without
      touching `_aes`. */
  lemma InitializeRejectsBlank(p: Primitives, s: ProviderState, name: Option<string>, seed: Option<string>, salt: Option<string>)
    requires IsNullOrWhiteSpace(seed) || IsNullOrWhiteSpace(salt)
    ensures var r := InitializeStep(p, s, name, seed, salt);
            r.outcome.Threw? && r.outcome.error.ConfigurationError? && r.state.aes == s.aes
  {
  }

  /** `Initialize` succeeds exactly when seed and salt are not blank and the
      prepared salt has at least eight bytes; it then installs the same key as
      `CreateKey` would. */
  lemma InitializeSucceeds(p: Primitives, s: ProviderState, name: Option<string>, seed: Option<string>, salt: Option<string>)
    ensures var r := InitializeStep(p, s, name, seed, salt);
            r.outcome == Completed <==>
              !IsNullOrWhiteSpace(seed) && !IsNullOrWhiteSpace(salt) && |PrepareSalt(p, salt)| >= MinSaltBytes
    ensures InitializeStep(p, s, name, seed, salt).outcome == Completed ==>
              InitializeStep(p, s, name, seed, salt).state.aes == CreateKeyStep(p, s, seed, salt).state.aes
  {
    if !IsNullOrWhiteSpace(seed) && !IsNullOrWhiteSpace(salt) {
      assert !IsNullOrEmpty(seed) && !IsNullOrEmpty(salt);
    }
  }

  /** The two entry points validate differently: a blank seed passes `CreateKey`
      (which only rejects null or empty) but not `Initialize`. Here the salt is
      the hex text of at least eight bytes. */
  lemma ValidationDiffers(p: Primitives, s: ProviderState, name: Option<string>, saltBytes: seq<byte>)
    requires |saltBytes| >= MinSaltBytes
    ensures CreateKeyStep(p, s, Some(" "), Some(HexEncode(saltBytes))).outcome == Completed
    ensures InitializeStep(p, s, name, Some(" "), Some(HexEncode(saltBytes))).outcome
            == Threw(ConfigurationError(NoSeedProvided))
  {
    HexEncodeShape(saltBytes);
    PrepareSaltOfHexText(p, saltBytes);
  }

  /** After a successful `Initialize`, decrypting what `EncryptString` produced
      gives the plaintext back. */
  lemma InitializeThenRoundTrip(p: Primitives, s: ProviderState, name: Option<string>, seed: Option<string>, salt: Option<string>, plainText: Option<string>)
    requires Lawful(p)
    requires InitializeStep(p, s, name, seed, salt).outcome == Completed
    ensures var aes := InitializeStep(p, s, name, seed, salt).state.aes;
            && EncryptString(p, aes, plainText).Ok?
            && DecryptString(p, aes, Some(EncryptString(p, aes, plainText).value)) == Ok(plainText.GetOr(""))
  {
    InitializeSucceeds(p, s, name, seed, salt);
    CreateKeyResult(p, s.(name := name, seed := seed, salt := salt), seed, salt);
    var k := InitializeStep(p, s, name, seed, salt).state.aes.value;
    EnvelopeRoundTrip(p, k, plainText);
  }
}
