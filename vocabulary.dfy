/**
 * `FastaSampler.__generate_vocabulary` and the `to_num` encoding: the character ids,
 * the pad id 0, and the inverse dictionary.
 */
module Vocab {
  import opened Wrappers
  import opened Errors

  /** The control characters the sampler is constructed with. */
  datatype Symbols = Symbols(start: char, end: char, delim0: char, delim1: char, pad: char)

  /** The four symbols appended to the alphabet before ids are given out. */
  function Controls(sym: Symbols): string {
    [sym.start, sym.end, sym.delim0, sym.delim1]
  }

  /**
   * What `helper.get_idx(s)` is assumed to return (helper.py is not part of this
   * model): a key for exactly the characters of `s`, and a different id for each.
   */
  ghost predicate IsEnumeration(m: map<char, int>, s: string) {
    && (forall c :: c in m <==> c in s)
    && forall a, b :: a in m && b in m && a != b ==> m[a] != m[b]
  }

  ghost predicate IsEnumerator(getIdx: string -> map<char, int>) {
    forall s :: IsEnumeration(getIdx(s), s)
  }

  /**
   * `self.vocabulary`: get_idx over the alphabet and the four control symbols, then
   * `pad_char` forced to 0. Only the pad id can be shared, with whatever get_idx gave 0.
   */
  function Vocabulary(alphabet: string, sym: Symbols, getIdx: string -> map<char, int>): (v: map<char, int>)
    requires IsEnumeration(getIdx(alphabet + Controls(sym)), alphabet + Controls(sym))
    ensures sym.pad in v && v[sym.pad] == 0
    ensures forall c :: c in v <==> c in alphabet || c in Controls(sym) || c == sym.pad
    ensures forall a, b :: a in v && b in v && a != b && v[a] == v[b] ==> (a == sym.pad || b == sym.pad) && v[a] == 0
  {
    getIdx(alphabet + Controls(sym))[sym.pad := 0]
  }

  /** `inverse` maps exactly the ids in use, each to a character that has that id. */
  ghost predicate IsInverse(inverse: map<int, char>, v: map<char, int>) {
    && inverse.Keys == v.Values
    && forall t :: t in inverse ==> inverse[t] in v && v[inverse[t]] == t
  }

  /**
   * `{v: k for k, v in self.vocabulary.items()}`: a later item overwrites an earlier
   * one with the same id; the item order is get_idx's, which the model leaves open.
   */
  method InvertVocabulary(v: map<char, int>) returns (inverse: map<int, char>)
    ensures IsInverse(inverse, v)
  {
    inverse := map[];
    var todo := v.Keys;
    while todo != {}
      invariant todo <= v.Keys
      invariant forall c :: c in v && c !in todo ==> v[c] in inverse
      invariant forall t :: t in inverse ==> inverse[t] in v && inverse[t] !in todo && v[inverse[t]] == t
      decreases |todo|
    {
      var c :| c in todo;
      inverse := inverse[v[c] := c];
      todo := todo - {c};
    }
    forall t | t in v.Values
      ensures t in inverse
    {
      var c :| c in v && v[c] == t;
    }
    forall t | t in inverse
      ensures t in v.Values
    {
      assert v[inverse[t]] in v.Values;
    }
  }

  /**
   * `self.vocabulary[self.pad_char] = 0` then the inverting comprehension, in dict order:
   * a pad already among get_idx's keys keeps its place, which the model leaves open, but
   * a new pad is appended last, so its `0 -> pad` item is the last one written.
   */
  method InvertPadded(base: map<char, int>, pad: char) returns (inverse: map<int, char>)
    ensures IsInverse(inverse, base[pad := 0])
    ensures pad !in base ==> 0 in inverse && inverse[0] == pad
  {
    if pad in base {
      inverse := InvertVocabulary(base[pad := 0]);
    } else {
      var rest := InvertVocabulary(base);
      inverse := rest[0 := pad];
      var v := base[pad := 0];
      forall t | t in v.Values
        ensures t in inverse
      {
        var c :| c in v && v[c] == t;
        if c != pad {
          assert base[c] in base.Values;
        }
      }
      forall t | t in inverse
        ensures t in v.Values && inverse[t] in v && v[inverse[t]] == t
      {
        if t == 0 {
          assert v[pad] == 0;
        } else {
          assert rest[t] in base && rest[t] != pad;
          assert v[rest[t]] in v.Values;
        }
      }
    }
  }

  /** Decoding an id recovers its character whenever no other character shares the id. */
  lemma InverseRecovers(inverse: map<int, char>, v: map<char, int>, c: char)
    requires IsInverse(inverse, v)
    requires c in v
    requires forall d :: d in v && d != c ==> v[d] != v[c]
    ensures v[c] in inverse && inverse[v[c]] == c
  {
    var t := v[c];
    assert t in v.Values;
    assert t in inverse;
    assert inverse[t] in v && v[inverse[t]] == t;
  }

  /** Every character of the vocabulary with a non-zero id is decoded back to itself. */
  lemma VocabularyDecodes(alphabet: string, sym: Symbols, getIdx: string -> map<char, int>, inverse: map<int, char>, c: char)
    requires IsEnumeration(getIdx(alphabet + Controls(sym)), alphabet + Controls(sym))
    requires IsInverse(inverse, Vocabulary(alphabet, sym, getIdx))
    requires c in Vocabulary(alphabet, sym, getIdx) && Vocabulary(alphabet, sym, getIdx)[c] != 0
    ensures inverse[Vocabulary(alphabet, sym, getIdx)[c]] == c
  {
    InverseRecovers(inverse, Vocabulary(alphabet, sym, getIdx), c);
  }

  /** `[self.vocabulary[c] for c in characters]`: a KeyError names the first character without an id. */
  function Encode(v: map<char, int>, s: string): (r: Result<seq<int>, Error>)
    ensures r.Success? <==> forall i :: 0 <= i < |s| ==> s[i] in v
    ensures r.Success? ==> |r.value| == |s| && forall i :: 0 <= i < |s| ==> r.value[i] == v[s[i]]
    ensures r.Failure? ==> exists i :: 0 <= i < |s| && r.error == NotInVocabulary(s[i]) && s[i] !in v && forall j :: 0 <= j < i ==> s[j] in v
    decreases |s|
  {
    if s == [] then Success([])
    else if s[0] !in v then Failure(NotInVocabulary(s[0]))
    else match Encode(v, s[1..])
      case Failure(e) => Failure(e)
      case Success(rest) => Success([v[s[0]]] + rest)
  }

  /** Reading ids back through the inverse dictionary: the reference partner of Encode. */
  function Decode(inverse: map<int, char>, tokens: seq<int>): Option<string>
    decreases |tokens|
  {
    if tokens == [] then Some([])
    else if tokens[0] !in inverse then None
    else match Decode(inverse, tokens[1..])
      case None => None
      case Some(rest) => Some([inverse[tokens[0]]] + rest)
  }

  /** A string none of whose characters shares its id decodes back from its encoding. */
  lemma {:induction false} DecodeEncode(inverse: map<int, char>, v: map<char, int>, s: string)
    requires IsInverse(inverse, v)
    requires forall i :: 0 <= i < |s| ==> s[i] in v
    requires forall i, d :: 0 <= i < |s| && d in v && d != s[i] ==> v[d] != v[s[i]]
    ensures Encode(v, s).Success? && Decode(inverse, Encode(v, s).value) == Some(s)
    decreases |s|
  {
    if s != [] {
      InverseRecovers(inverse, v, s[0]);
      DecodeEncode(inverse, v, s[1..]);
      assert Encode(v, s).value[1..] == Encode(v, s[1..]).value;
      assert [s[0]] + s[1..] == s;
    }
  }

  /** The encoding of each string of a list, in order; the first KeyError ends it. */
  function EncodeAll(v: map<char, int>, texts: seq<string>): (r: Result<seq<seq<int>>, Error>)
    ensures r.Success? <==> forall k :: 0 <= k < |texts| ==> Encode(v, texts[k]).Success?
    ensures r.Success? ==> |r.value| == |texts| && forall k :: 0 <= k < |texts| ==> r.value[k] == Encode(v, texts[k]).value
    decreases |texts|
  {
    if texts == [] then Success([])
    else match Encode(v, texts[0])
      case Failure(e) => Failure(e)
      case Success(first) =>
        match EncodeAll(v, texts[1..])
        case Failure(e) => Failure(e)
        case Success(rest) => Success([first] + rest)
  }
}
