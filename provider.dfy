/** `SymmetricProtectedConfigurationProvider` as an object: its fields are updated
    in place by `Initialize`, `CreateKey`, `DropAesInstance` and `Dispose`, and
    each method is proved to take the fields to the state its transition
    function in `Lifecycle` gives. */
module ConfigurationProvider {
  import opened Common
  import opened Library
  import opened KeyDerivation
  import opened Salt
  import opened Lifecycle

  class SymmetricProtectedConfigurationProvider {
    /** The library calls this provider makes. */
    const prims: Primitives

    var name: Option<string>
    var seed: Option<string>
    var salt: Option<string>
    var aes: Option<KeyMaterial>
    var disposed: bool

    /** The fields, as one value. */
    function State(): ProviderState
      reads this
    {
      ProviderState(name, seed, salt, aes, disposed)
    }

    constructor (prims: Primitives)
      ensures this.prims == prims
      ensures State() == Initial
    {
      this.prims := prims;
      name, seed, salt := None, None, None;
      aes := None;
      disposed := false;
    }

    /** `Initialize(name, config)`, given the values `config["seed"]` and
        `config["salt"]` (null when missing). */
    method Initialize(name: Option<string>, seedEntry: Option<string>, saltEntry: Option<string>) returns (outcome: Outcome)
      modifies this
      ensures Step(outcome, State()) == InitializeStep(prims, old(State()), name, seedEntry, saltEntry)
    {
      this.name := name;
      this.seed := seedEntry;
      this.salt := saltEntry;
      if IsNullOrWhiteSpace(seedEntry) {
        return Threw(ConfigurationError(NoSeedProvided));
      }
      if IsNullOrWhiteSpace(saltEntry) {
        return Threw(ConfigurationError(NoSaltProvided));
      }
      outcome := CreateKey(seedEntry, saltEntry);
    }

    /** `CreateKey(seed, salt)`: validate, drop the old instance, prepare the salt,
        then read the key and the IV from one PBKDF2 generator, in that order. */
    method CreateKey(seed: Option<string>, salt: Option<string>) returns (outcome: Outcome)
      modifies this
      ensures Step(outcome, State()) == CreateKeyStep(prims, old(State()), seed, salt)
    {
      if IsNullOrEmpty(seed) {
        return Threw(ArgumentError(NoSeedSupplied));
      }
      if IsNullOrEmpty(salt) {
        return Threw(ArgumentError(NoSaltSupplied));
      }
      DropAesInstance();
      var binarySalt := PrepareSalt(prims, salt);
      if |binarySalt| < MinSaltBytes {
        return Threw(ArgumentError(SaltTooShort));
      }
      var bytesGenerator := new DeriveBytesGenerator(prims, seed.value, binarySalt);
      var key := bytesGenerator.GetBytes(KeySizeBits / 8);
      var iv := bytesGenerator.GetBytes(BlockSizeBits / 8);
      aes := Some(KeyMaterial(key, iv));
      return Completed;
    }

    /** `DropAesInstance`: take the instance out of `_aes`; a failure while
        disposing it is swallowed, so the method always completes. */
    method DropAesInstance()
      modifies this
      ensures State() == DropAes(old(State()))
    {
      aes := None;
    }

    /** `Dispose(disposing)`: guarded by `_disposed`, so only the first call acts. */
    method DisposeCore(disposing: bool)
      modifies this
      ensures State() == DisposeStep(old(State()))
    {
      if !disposed {
        if disposing {
          DropAesInstance();
        }
        aes := None;
        disposed := true;
      }
    }

    /** `Dispose()`: `Dispose(true)`. */
    method Dispose()
      modifies this
      ensures State() == DisposeStep(old(State()))
    {
      DisposeCore(true);
    }
  }
}
