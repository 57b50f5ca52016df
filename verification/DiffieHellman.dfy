/**
 The key agreement, and the credentials that travel under the agreed key
 (common/walt/common/crypto/dh.py; blowfish.py for the cipher). Modulus and generator are parameters.
 */
module DiffieHellman {
  import opened Wrappers
  import opened Arithmetic
  import Blowfish
  import Utf8

  function Pow(b: nat, e: nat): nat {
    if e == 0 then 1 else b * Pow(b, e - 1)
  }

  /** Python's pow(b, e, p). */
  function PowMod(b: nat, e: nat, p: nat): nat
    requires p > 0
  {
    Pow(b, e) % p
  }

  datatype Group = Group(g: nat, p: nat)

  lemma Expand(q: nat, r: nat, s: nat, t: nat, b: nat, p: nat)
    requires r * b == s * p + t
    ensures (q * p + r) * b == (q * b + s) * p + t
  {
  }

  lemma MulMod(a: nat, b: nat, p: nat)
    requires p > 0
    ensures (a % p) * b % p == a * b % p
  {
    var q, r := a / p, a % p;
    var s, t := r * b / p, r * b % p;
    assert a == q * p + r;
    Expand(q, r, s, t, b, p);
    RemainderUnique(a * b, q * b + s, t, p);
  }

  lemma {:induction false} PowOfMod(b: nat, e: nat, p: nat)
    requires p > 0
    ensures Pow(b % p, e) % p == Pow(b, e) % p
  {
    if e > 0 {
      var c := b % p;
      PowOfMod(b, e - 1, p);
      MulMod(Pow(c, e - 1), c, p);
      MulMod(Pow(b, e - 1), c, p);
      MulMod(b, Pow(b, e - 1), p);
      assert Pow(c, e) == Pow(c, e - 1) * c;
      assert c * Pow(b, e - 1) == Pow(b, e - 1) * c;
    }
  }

  lemma MulAssociative(a: nat, b: nat, c: nat)
    ensures a * (b * c) == (a * b) * c
  {
  }

  lemma {:induction false} PowAdd(b: nat, d: nat, e: nat)
    ensures Pow(b, d + e) == Pow(b, d) * Pow(b, e)
  {
    if d > 0 {
      PowAdd(b, d - 1, e);
      MulAssociative(b, Pow(b, d - 1), Pow(b, e));
    }
  }

  lemma {:induction false} PowPow(b: nat, d: nat, e: nat)
    ensures Pow(Pow(b, d), e) == Pow(b, d * e)
  {
    if e == 0 {
      assert d * e == 0;
    } else {
      PowPow(b, d, e - 1);
      PowAdd(b, d, d * (e - 1));
      assert d + d * (e - 1) == d * e;
    }
  }

  /** For all private keys, both peers derive the same symmetric key. */
  lemma KeysAgree(group: Group, a: nat, b: nat)
    requires group.p > 0
    ensures PowMod(PowMod(group.g, b, group.p), a, group.p) == PowMod(PowMod(group.g, a, group.p), b, group.p)
  {
    PowOfMod(Pow(group.g, b), a, group.p);
    PowOfMod(Pow(group.g, a), b, group.p);
    PowPow(group.g, a, b);
    PowPow(group.g, b, a);
    assert a * b == b * a;
  }

  class DHPeer {
    const group: Group
    const privKey: nat
    const pubKey: nat
    var symmetricKey: Option<nat>

    constructor (group: Group, privKey: nat)
      requires group.p > 0
      ensures this.group == group && this.privKey == privKey && pubKey == PowMod(group.g, privKey, group.p)
      ensures symmetricKey == None
    {
      this.group, this.privKey := group, privKey;
      pubKey := PowMod(group.g, privKey, group.p);
      symmetricKey := None;
    }

    method EstablishSession(remotePubKey: nat)
      requires group.p > 0
      modifies this
      ensures symmetricKey == Some(PowMod(remotePubKey, privKey, group.p))
    {
      symmetricKey := Some(PowMod(remotePubKey, privKey, group.p));
    }
  }

  const BITLENGTH := 448

  /** The tables one peer computes from its private key and the public key of the other. */
  function SessionTables(initial: Blowfish.Tables, group: Group, mine: nat, theirs: nat): (t: Blowfish.Tables)
    requires group.p > 0 && Blowfish.ValidTables(initial)
    ensures Blowfish.ValidTables(t)
  {
    Blowfish.KeyTables(initial, PowMod(PowMod(group.g, theirs, group.p), mine, group.p), BITLENGTH)
  }

  /** A password encrypted by one peer is what the other one decrypts. */
  lemma CredentialsRoundTrip(initial: Blowfish.Tables, group: Group, a: nat, b: nat, password: seq<Utf8.CodePoint>)
    requires group.p > 0 && Blowfish.ValidTables(initial) && Utf8.Encodable(password)
    ensures var sent := Blowfish.EncryptedText(SessionTables(initial, group, a, b), password);
            sent.Ok? && Blowfish.DecryptedText(SessionTables(initial, group, b, a), sent.value) == Ok(password)
  {
    hide Blowfish.EncryptedText, Blowfish.DecryptedText;
    KeysAgree(group, a, b);
    Blowfish.TextRoundTrip(SessionTables(initial, group, a, b), password);
  }

  /** The same with the objects of the program: a login of one peer at the other. */
  method Login(initial: Blowfish.Tables, group: Group, a: nat, b: nat, password: seq<Utf8.CodePoint>)
    returns (received: Result<seq<Utf8.CodePoint>, Blowfish.Error>)
    requires group.p > 0 && Blowfish.ValidTables(initial)
    ensures received == if Utf8.Encodable(password) then Ok(password) else Err(Blowfish.NotEncodable)
  {
    var client := new DHPeer(group, a);
    var server := new DHPeer(group, b);
    client.EstablishSession(server.pubKey);
    server.EstablishSession(client.pubKey);
    var cypher := new Blowfish.BlowFish(initial, client.symmetricKey.value, BITLENGTH);
    var sent := cypher.Encrypt(password);
    if sent.Err? {
      return Err(Blowfish.NotEncodable);
    }
    var decypher := new Blowfish.BlowFish(initial, server.symmetricKey.value, BITLENGTH);
    received := decypher.Decrypt(sent.value);
    CredentialsRoundTrip(initial, group, a, b, password);
  }
}
