/**
 * The CSP hash token: `'<algo>-<base64 digest>'`, a source expression of a
 * Content-Security-Policy directive that allows one exact inline snippet.
 * The SHA-2 digest itself is a parameter of type `Digest`; the model never
 * looks inside it.
 */
module CspHash {
  import opened Wrappers
  import Base64

  /** The three digest algorithms a CSP hash source may name. */
  datatype Algo = Sha256 | Sha384 | Sha512

  /** The digest primitive: algorithm and text to the raw digest bytes. */
  type Digest = (Algo, string) -> seq<Base64.byte>

  function AlgoName(a: Algo): (n: string)
    ensures |n| == 6 && n[..3] == "sha"
  {
    match a
    case Sha256 => "sha256"
    case Sha384 => "sha384"
    case Sha512 => "sha512"
  }

  /** The algorithm a name denotes, accepting exactly the names `/^sha(256|384|512)$/` matches. */
  function ParseAlgo(name: string): (r: Option<Algo>)
    ensures r.Some? ==> AlgoName(r.value) == name
  {
    if |name| != 6 || name[..3] != "sha" then None
    else if name[3..] == "256" then Some(Sha256)
    else if name[3..] == "384" then Some(Sha384)
    else if name[3..] == "512" then Some(Sha512)
    else None
  }

  /** A name is accepted exactly when it is the name of one of the three algorithms. */
  lemma ParseAlgoExact(name: string, a: Algo)
    ensures ParseAlgo(name) == Some(a) <==> name == AlgoName(a)
  {
    if name == AlgoName(a) {
      assert name[..3] == "sha";
      assert name[3..] == AlgoName(a)[3..];
    }
  }

  /** The token for `input`: quote, algorithm name, dash, base64 of the digest, quote. */
  function MakeCspHash(algo: Algo, input: string, digest: Digest): (t: string)
    ensures |t| == 9 + |Base64.Encode(digest(algo, input))|
    ensures t[0] == '\'' && t[|t| - 1] == '\'' && t[7] == '-'
    ensures t[1..7] == AlgoName(algo)
    ensures Base64.Decode(t[8..|t| - 1]) == Some(digest(algo, input))
  {
    var e := Base64.Encode(digest(algo, input));
    var t := "'" + AlgoName(algo) + "-" + e + "'";
    assert t[1..7] == AlgoName(algo);
    assert t[8..|t| - 1] == e;
    Base64.DecodeEncode(digest(algo, input));
    t
  }

  /** `createCspHash(input, algo = 'sha256')`: the same token with the algorithm defaulted. */
  function CreateCspHash(input: string, algo: Option<Algo>, digest: Digest): (t: string)
    ensures algo.None? ==> t == MakeCspHash(Sha256, input, digest)
    ensures algo.Some? ==> t == MakeCspHash(algo.value, input, digest)
  {
    MakeCspHash(algo.GetOr(Sha256), input, digest)
  }

  /** Reads the algorithm and the digest bytes back out of a token. */
  function ParseToken(t: string): (r: Option<(Algo, seq<Base64.byte>)>)
  {
    if |t| < 9 || t[0] != '\'' || t[|t| - 1] != '\'' || t[7] != '-' then None
    else match (ParseAlgo(t[1..7]), Base64.Decode(t[8..|t| - 1]))
      case (Some(a), Some(d)) => Some((a, d))
      case _ => None
  }

  /** A token carries its algorithm and digest: parsing it gives them back. */
  lemma TokenRoundTrip(algo: Algo, input: string, digest: Digest)
    ensures ParseToken(MakeCspHash(algo, input, digest)) == Some((algo, digest(algo, input)))
  {
    var t := MakeCspHash(algo, input, digest);
    ParseAlgoExact(t[1..7], algo);
  }

  /** Two tokens are equal exactly when they name the same algorithm and the same digest bytes. */
  lemma TokenEquality(a1: Algo, x1: string, a2: Algo, x2: string, digest: Digest)
    ensures MakeCspHash(a1, x1, digest) == MakeCspHash(a2, x2, digest)
            <==> a1 == a2 && digest(a1, x1) == digest(a2, x2)
  {
    if MakeCspHash(a1, x1, digest) == MakeCspHash(a2, x2, digest) {
      TokenRoundTrip(a1, x1, digest);
      TokenRoundTrip(a2, x2, digest);
    }
  }

  /** `createCspHash(input)` and `createCspHash(input, 'sha256')` give the same token. */
  lemma CreateCspHashDefault(input: string, digest: Digest)
    ensures ParseToken(CreateCspHash(input, None, digest)) == Some((Sha256, digest(Sha256, input)))
    ensures CreateCspHash(input, None, digest) == CreateCspHash(input, Some(Sha256), digest)
  {
    TokenRoundTrip(Sha256, input, digest);
  }
}
