/**
  The cryptographic library, known only by the laws an ideal library obeys.

  Randomness is an argument: coins stands for the random choices of one encryption.
 */
module Crypto {
  import opened Common

  datatype KeyPair = KeyPair(publicKeyPem: string, privateKeyPem: string)

  const KEY_SIZE: nat := 32

  datatype Library = Library(
    isPair: KeyPair -> bool,                                     // what key generation produces
    wrap: (string, seq<byte>, nat) -> seq<byte>,                 // public key, session key, coins
    unwrap: (string, seq<byte>) -> Option<seq<byte>>,            // private key, wrapped key
    seal: (seq<byte>, seq<byte>, nat) -> seq<byte>,              // plaintext, session key, coins
    open: (seq<byte>, seq<byte>) -> Option<seq<byte>>            // ciphertext, session key
  )

  // Decryption undoes encryption, and PEM texts and wrapped keys are not empty.
  ghost predicate Ideal(lib: Library) {
    && (forall keys :: lib.isPair(keys) ==> keys.publicKeyPem != "")
    && (forall keys, key, coins :: lib.isPair(keys) && |key| == KEY_SIZE ==>
          lib.unwrap(keys.privateKeyPem, lib.wrap(keys.publicKeyPem, key, coins)) == Some(key))
    && (forall pem, key, coins :: lib.wrap(pem, key, coins) != [])
    && (forall text, key, coins :: |key| == KEY_SIZE ==> lib.open(lib.seal(text, key, coins), key) == Some(text))
  }

  // The laws can be met: a library that encrypts nothing meets them.
  lemma SomeLibraryIsIdeal()
    ensures exists lib :: Ideal(lib)
  {
    var lib := Library(
      (keys: KeyPair) => keys.publicKeyPem != "",
      (pem: string, key: seq<byte>, coins: nat) => [0] + key,
      (pem: string, data: seq<byte>) => if data == [] then None else Some(data[1..]),
      (text: seq<byte>, key: seq<byte>, coins: nat) => text,
      (data: seq<byte>, key: seq<byte>) => Some(data)
    );
    assert forall key: seq<byte> :: ([0] + key)[1..] == key;
    assert Ideal(lib);
  }
}
