/** The codec search function of `ftfy.bad_codecs`: a memoising resolver from encoding names to
    the one "utf-8 variants" codec, with a module-level cache that only remembers successes.

    `encodings.normalize_encoding` and `utf8_variants.CODEC_INFO` are not part of this model:
    they are the registry's two constant fields, `normalize` and `variantsCodec`. Registering
    the function with `codecs.register` (line 23) is left out. */
module Registry {
  import opened Wrappers

  /** The normalised spellings that name the utf-8 variants codec (line 13). */
  const VariantNames: set<string> := {"utf8variants", "utf8variant", "utf8var"}

  /** `s.replace('_', '')`. */
  function RemoveUnderscores(s: string): (r: string)
    ensures '_' !in r
    ensures '_' !in s ==> r == s
    ensures forall c :: c != '_' ==> multiset(r)[c] == multiset(s)[c]
  {
    if |s| == 0 then ""
    else
      assert s == [s[0]] + s[1..];
      if s[0] == '_' then RemoveUnderscores(s[1..]) else [s[0]] + RemoveUnderscores(s[1..])
  }

  /** What a lookup that misses the cache resolves `encoding` to (lines 11-15). */
  function Resolve<C>(normalize: string -> string, variantsCodec: C, encoding: string): Option<C>
  {
    if RemoveUnderscores(normalize(encoding)) in VariantNames then Some(variantsCodec) else None
  }

  /** One call of `search_function` on a given cache: the result and the cache afterwards. */
  function Search<C>(cache: map<string, C>, normalize: string -> string, variantsCodec: C, encoding: string)
    : (r: (Option<C>, map<string, C>))
    // a hit returns the cached codec and leaves the cache alone
    ensures encoding in cache ==> r == (Some(cache[encoding]), cache)
    // a miss resolves exactly the three variant spellings
    ensures encoding !in cache ==> (r.0.Some? <==> RemoveUnderscores(normalize(encoding)) in VariantNames)
    ensures encoding !in cache && r.0.Some? ==> r.0.value == variantsCodec
    // a success is stored under the requested name; a failure is stored nowhere
    ensures r.0.Some? ==> r.1 == cache[encoding := r.0.value]
    ensures r.0.None? ==> r.1 == cache && encoding !in r.1
  {
    if encoding in cache then (Some(cache[encoding]), cache)
    else
      var codec := Resolve(normalize, variantsCodec, encoding);
      if codec.Some? then (codec, cache[encoding := codec.value]) else (codec, cache)
  }

  /** The cache holds only what a fresh resolution would give. */
  ghost predicate Faithful<C>(cache: map<string, C>, normalize: string -> string, variantsCodec: C)
  {
    forall k :: k in cache ==> Resolve(normalize, variantsCodec, k) == Some(cache[k])
  }

  /** Memoisation is invisible: on a faithful cache, a lookup returns what resolution without
      the cache returns, the cache stays faithful, and it only ever maps to the one codec. */
  lemma SearchIsResolve<C>(cache: map<string, C>, normalize: string -> string, variantsCodec: C, encoding: string)
    requires Faithful(cache, normalize, variantsCodec)
    ensures Search(cache, normalize, variantsCodec, encoding).0 == Resolve(normalize, variantsCodec, encoding)
    ensures Faithful(Search(cache, normalize, variantsCodec, encoding).1, normalize, variantsCodec)
    ensures forall k :: k in Search(cache, normalize, variantsCodec, encoding).1 ==>
              Search(cache, normalize, variantsCodec, encoding).1[k] == variantsCodec
  {
    var r := Search(cache, normalize, variantsCodec, encoding);
    forall k | k in r.1 ensures Resolve(normalize, variantsCodec, k) == Some(r.1[k]) && r.1[k] == variantsCodec {
      if k != encoding || encoding in cache {
        assert k in cache;
      }
    }
  }

  /** Asking twice for the same name gives the same answer and the second call changes nothing. */
  lemma SearchIdempotent<C>(cache: map<string, C>, normalize: string -> string, variantsCodec: C, encoding: string)
    ensures var (r1, cache1) := Search(cache, normalize, variantsCodec, encoding);
            Search(cache1, normalize, variantsCodec, encoding) == (r1, cache1)
  {
  }

  /** The process-wide registry: the search function's `_cache` and its two collaborators. */
  class CodecRegistry<C> {
    const normalize: string -> string
    const variantsCodec: C
    var cache: map<string, C>

    ghost predicate Valid()
      reads this
    {
      Faithful(cache, normalize, variantsCodec)
    }

    /** `_cache = {}` (line 4). */
    constructor (normalize: string -> string, variantsCodec: C)
      ensures Valid()
      ensures this.normalize == normalize && this.variantsCodec == variantsCodec && cache == map[]
    {
      this.normalize := normalize;
      this.variantsCodec := variantsCodec;
      cache := map[];
    }

    /** `search_function(encoding)` (lines 7-20). */
    method SearchFunction(encoding: string) returns (codec: Option<C>)
      requires Valid()
      modifies this
      ensures Valid()
      ensures (codec, cache) == Search(old(cache), normalize, variantsCodec, encoding)
      ensures codec == Resolve(normalize, variantsCodec, encoding)
    {
      SearchIsResolve(cache, normalize, variantsCodec, encoding);
      if encoding in cache {
        return Some(cache[encoding]);
      }
      var normEncoding := RemoveUnderscores(normalize(encoding));
      codec := None;
      if normEncoding in VariantNames {
        codec := Some(variantsCodec);
      }
      if codec.Some? {
        cache := cache[encoding := codec.value];
      }
    }
  }
}
