/** The LZW codec of `compression.py`: `encode` turns a string into a list
    of codes over a growing string-to-code dictionary seeded with the 256
    one-character strings, `decode` rebuilds the string from the codes over
    the mirror code-to-string dictionary, and `save_codes`/`load_codes`
    store the codes as fixed-width decimal text. Both dictionaries are
    `CustomDict` instances. */
module Lzw {
  import opened Common
  import opened Buckets
  import opened CustomDicts

  /** A non-empty string: every value of the decoding dictionary. */
  type Word = s: string | |s| > 0 witness "a"

  /** The number of one-character strings both dictionaries start with. */
  const Alphabet: nat := 256

  /** The code point of `chr(v)`: Python accepts 0 to 0x10FFFF. */
  predicate IsCodePoint(v: int) {
    0 <= v < 0xD800 || 0xE000 <= v < 0x11_0000
  }

  /* ---------------------------------------------------------------- */
  /* Encoding                                                          */
  /* ---------------------------------------------------------------- */

  /** The encoding dictionary after `dictionary.set(chr(i), i)` for every `i < n`. */
  function EncodeSeed(n: nat): map<DictKey, int>
    requires n <= Alphabet
  {
    if n == 0 then map[] else EncodeSeed(n - 1)[Str([(n - 1) as char]) := n - 1]
  }

  /** It holds the `n` one-character strings below `n`, each under its code point. */
  lemma {:induction false} EncodeSeedFacts(n: nat)
    requires n <= Alphabet
    ensures |EncodeSeed(n)| == n
    ensures forall c: char :: c as int < n ==> Str([c]) in EncodeSeed(n) && EncodeSeed(n)[Str([c])] == c as int
    ensures forall s :: s in EncodeSeed(n) ==> s.Str? && 0 <= EncodeSeed(n)[s] < n && s.s == [EncodeSeed(n)[s] as char]
  {
    if n > 0 {
      EncodeSeedFacts(n - 1);
      assert Str([(n - 1) as char]) !in EncodeSeed(n - 1);
    }
  }

  /** The variables of `encode`'s loop: the dictionary, the current phrase `w`
      and the emitted codes; `get` answers None for a string it does not hold. */
  datatype Encoder = Encoder(dict: map<DictKey, int>, w: string, out: seq<Option<int>>)

  function Get<V>(m: map<DictKey, V>, k: DictKey): Option<V> {
    if k in m then Some(m[k]) else None
  }

  /** One turn of the loop for character `c`: a code once given keeps its
      string, codes are only ever appended to the output, and the phrase
      pending after the turn is never empty. */
  function EncodeStep(st: Encoder, c: char): (r: Encoder)
    ensures forall k :: k in st.dict ==> k in r.dict && r.dict[k] == st.dict[k]
    ensures |st.out| <= |r.out| <= |st.out| + 1 && r.out[..|st.out|] == st.out
    ensures r.w != []
  {
    var wc := st.w + [c];
    if Str(wc) in st.dict then st.(w := wc)
    else Encoder(st.dict[Str(wc) := |st.dict|], [c], st.out + [Get(st.dict, Str(st.w))])
  }

  /** The loop state after the characters of `text`. */
  function EncodeScan(text: string): Encoder
    decreases |text|
  {
    if text == [] then Encoder(EncodeSeed(Alphabet), "", [])
    else EncodeStep(EncodeScan(text[..|text| - 1]), text[|text| - 1])
  }

  /** `encode(text)`: the emitted codes, and the code of the last phrase
      when it is not empty. Only the empty text has no codes. */
  function Encoding(text: string): (r: seq<Option<int>>)
    ensures r == [] <==> text == []
  {
    var st := EncodeScan(text);
    if st.w != [] then st.out + [Get(st.dict, Str(st.w))] else st.out
  }

  /* ---------------------------------------------------------------- */
  /* Decoding                                                          */
  /* ---------------------------------------------------------------- */

  /** Why `decode` fails: no first code (`codes[0]` raises IndexError), a
      first code that `chr` rejects, or the ValueError for a code the
      dictionary cannot explain. */
  datatype DecodeError = NoCodes | BadCharacter(code: int) | BadCode(message: string)

  /** The decoding dictionary after `dictionary.set(i, chr(i))` for every `i < n`. */
  function DecodeSeed(n: nat): map<DictKey, Word>
    requires n <= Alphabet
  {
    if n == 0 then map[] else DecodeSeed(n - 1)[Num(n - 1) := [(n - 1) as char]]
  }

  /** It holds the codes below `n`, each under its one-character string. */
  lemma {:induction false} DecodeSeedFacts(n: nat)
    requires n <= Alphabet
    ensures |DecodeSeed(n)| == n
    ensures forall v: int :: Num(v) in DecodeSeed(n) <==> 0 <= v < n
    ensures forall v: int :: 0 <= v < n ==> DecodeSeed(n)[Num(v)] == [v as char]
  {
    if n > 0 {
      DecodeSeedFacts(n - 1);
    }
  }

  /** The variables of `decode`'s loop: the dictionary, the previous entry
      `w` and the entries emitted so far. */
  datatype Decoder = Decoder(dict: map<DictKey, Word>, w: Word, result: seq<Word>)

  /** One turn of the loop for code `k`: a known code, the code about to be
      defined (`w + w[0]`), or the ValueError "Bad compressed k: …". */
  function DecodeStep(st: Decoder, k: int): (r: Result<Decoder, DecodeError>)
    ensures r.Ok? <==> Num(k) in st.dict || k == |st.dict|
    ensures r.Err? ==> r.error == BadCode("Bad compressed k: " + IntToString(k))
    ensures r.Ok? ==> r.value.result == st.result + [r.value.w]
    ensures r.Ok? && Num(k) in st.dict ==> r.value.w == st.dict[Num(k)]
  {
    if Num(k) !in st.dict && k != |st.dict| then Err(BadCode("Bad compressed k: " + IntToString(k)))
    else
      var entry: Word := if Num(k) in st.dict then st.dict[Num(k)] else st.w + [st.w[0]];
      Ok(Decoder(st.dict[Num(|st.dict|) := st.w + [entry[0]]], entry, st.result + [entry]))
  }

  /** The loop state after the first code `first` and then the codes `ks`. */
  function DecodeScan(first: int, ks: seq<int>): (r: Result<Decoder, DecodeError>)
    ensures !IsCodePoint(first) ==> r == Err(BadCharacter(first))
    ensures r.Ok? ==> |r.value.result| == |ks| + 1
    decreases |ks|
  {
    if ks == [] then
      if IsCodePoint(first) then Ok(Decoder(DecodeSeed(Alphabet), [first as char], [[first as char]]))
      else Err(BadCharacter(first))
    else
      match DecodeScan(first, ks[..|ks| - 1])
      case Err(e) => Err(e)
      case Ok(st) => DecodeStep(st, ks[|ks| - 1])
  }

  /** `decode(codes)`: the emitted entries joined. No codes raise
      IndexError, and a first code that is not a code point is rejected
      before any other is read. */
  function Decoding(codes: seq<int>): (r: Result<string, DecodeError>)
    ensures codes == [] ==> r == Err(NoCodes)
    ensures codes != [] && !IsCodePoint(codes[0]) ==> r == Err(BadCharacter(codes[0]))
    ensures r.Ok? ==> IsCodePoint(codes[0])
  {
    if codes == [] then Err(NoCodes)
    else
      match DecodeScan(codes[0], codes[1..])
      case Err(e) => Err(e)
      case Ok(st) => Ok(Flatten(st.result))
  }

  /* ---------------------------------------------------------------- */
  /* The round trip                                                    */
  /* ---------------------------------------------------------------- */

  predicate Narrow(text: string) {
    forall i :: 0 <= i < |text| ==> text[i] as int < 256
  }

  /** The string a code stands for, given the strings `added` that codes
      256, 257, … were given in that order. */
  function CodeString(added: seq<string>, v: int): string
    requires 0 <= v < 256 + |added|
  {
    if v < 256 then [v as char] else added[v - 256]
  }

  /** `codes` spell the phrases `p` that make up a text: every phrase is
      non-empty, code 256 + k was given to phrase k followed by the first
      character of phrase k + 1, and each code refers only to the seed or to
      strings added before it was emitted. */
  ghost predicate Parse(codes: seq<int>, p: seq<string>, added: seq<string>) {
    |codes| == |p| && |p| >= 1 && |added| == |p| - 1
    && (forall j :: 0 <= j < |p| ==> p[j] != [])
    && (forall k :: 0 <= k < |added| ==> added[k] == p[k] + [p[k + 1][0]])
    && (forall j :: 0 <= j < |p| ==> 0 <= codes[j] < 256 + j && CodeString(added, codes[j]) == p[j])
  }

  /** The phrases `encode` has emitted after the characters of `text`. */
  ghost function Phrases(text: string): seq<string>
    decreases |text|
  {
    if text == [] then []
    else
      var front := text[..|text| - 1];
      var st := EncodeScan(front);
      if Str(st.w + [text[|text| - 1]]) in st.dict then Phrases(front) else Phrases(front) + [st.w]
  }

  /** The strings `encode` has added to its dictionary, in order. */
  ghost function Added(text: string): seq<string>
    decreases |text|
  {
    if text == [] then []
    else
      var front := text[..|text| - 1];
      var st := EncodeScan(front);
      var wc := st.w + [text[|text| - 1]];
      if Str(wc) in st.dict then Added(front) else Added(front) + [wc]
  }

  ghost predicate NonEmpty(p: seq<string>) {
    forall j :: 0 <= j < |p| ==> p[j] != []
  }

  /** The phrase after phrase `k`, or the pending phrase `w` after the last one. */
  function Follower(p: seq<string>, w: string, k: int): string
    requires 0 <= k < |p|
  {
    if k + 1 < |p| then p[k + 1] else w
  }

  /** Code 256 + k was given to phrase k followed by the first character of
      the phrase after it, the last one to the pending phrase `w`. */
  ghost predicate Chained(p: seq<string>, added: seq<string>, w: string)
    requires |p| == |added| && w != [] && NonEmpty(p)
  {
    forall k :: 0 <= k < |added| ==> added[k] == p[k] + [Follower(p, w, k)[0]]
  }

  /** Every emitted code is present, was known when it was emitted and
      stands for its phrase. */
  ghost predicate Spelled(out: seq<Option<int>>, p: seq<string>, added: seq<string>)
    requires |out| == |p| == |added|
  {
    forall j :: 0 <= j < |p| ==> out[j].Some? && 0 <= out[j].value < 256 + j && CodeString(added, out[j].value) == p[j]
  }

  /** The dictionary holds the 256 one-character strings and the added
      strings, each under the code that stands for it. */
  ghost predicate Coded(dict: map<DictKey, int>, added: seq<string>) {
    |dict| == 256 + |added|
    && (forall c: char :: c as int < 256 ==> Str([c]) in dict)
    && (forall s :: s in dict ==> s.Str? && 0 <= dict[s] < 256 + |added| && CodeString(added, dict[s]) == s.s)
  }

  /** What holds of `encode`'s variables after a non-empty prefix `text`. */
  ghost predicate Encoded(st: Encoder, p: seq<string>, added: seq<string>, text: string) {
    |p| == |added| == |st.out|
    && st.w != []
    && Flatten(p) + st.w == text
    && NonEmpty(p)
    && Chained(p, added, st.w)
    && Spelled(st.out, p, added)
    && Coded(st.dict, added)
    && Str(st.w) in st.dict
  }

  lemma CodedAdd(dict: map<DictKey, int>, added: seq<string>, wc: string)
    requires Coded(dict, added) && Str(wc) !in dict
    ensures Coded(dict[Str(wc) := |dict|], added + [wc])
  {
    var d := dict[Str(wc) := |dict|];
    var a := added + [wc];
    forall s | s in d
      ensures s.Str? && 0 <= d[s] < 256 + |a| && CodeString(a, d[s]) == s.s
    {
      if s != Str(wc) {
        assert d[s] == dict[s];
        assert CodeString(a, dict[s]) == CodeString(added, dict[s]);
      }
    }
  }

  lemma SpelledAdd(out: seq<Option<int>>, p: seq<string>, added: seq<string>, v: int, w: string, wc: string)
    requires |out| == |p| == |added| && Spelled(out, p, added)
    requires 0 <= v < 256 + |added| && CodeString(added, v) == w
    ensures Spelled(out + [Some(v)], p + [w], added + [wc])
  {
    var a := added + [wc];
    forall j | 0 <= j < |p| + 1
      ensures (out + [Some(v)])[j].Some? && 0 <= (out + [Some(v)])[j].value < 256 + j
        && CodeString(a, (out + [Some(v)])[j].value) == (p + [w])[j]
    {
      if j < |p| {
        assert (out + [Some(v)])[j] == out[j];
      }
    }
  }

  lemma ChainedAdd(p: seq<string>, added: seq<string>, w: string, c: char)
    requires |p| == |added| && w != [] && NonEmpty(p) && Chained(p, added, w)
    ensures NonEmpty(p + [w]) && Chained(p + [w], added + [w + [c]], [c])
  {
    var p' := p + [w];
    var a := added + [w + [c]];
    forall k | 0 <= k < |a|
      ensures a[k] == p'[k] + [Follower(p', [c], k)[0]]
    {
      if k + 1 < |p| {
        assert added[k] == p[k] + [p[k + 1][0]];
        assert a[k] == added[k] && p'[k] == p[k] && p'[k + 1] == p[k + 1];
      } else if k + 1 == |p| {
        assert added[k] == p[k] + [w[0]];
        assert a[k] == added[k] && p'[k] == p[k] && p'[k + 1] == w;
      } else {
        assert a[k] == w + [c] && p'[k] == w;
      }
    }
  }

  lemma ChainedGrow(p: seq<string>, added: seq<string>, w: string, c: char)
    requires |p| == |added| && w != [] && NonEmpty(p) && Chained(p, added, w)
    ensures Chained(p, added, w + [c])
  {
    forall k | 0 <= k < |added|
      ensures added[k] == p[k] + [Follower(p, w + [c], k)[0]]
    {
      assert added[k] == p[k] + [Follower(p, w, k)[0]];
      if k + 1 == |p| {
        assert (w + [c])[0] == w[0];
      }
    }
  }

  lemma SeedCoded()
    ensures Coded(EncodeSeed(Alphabet), [])
  {
    EncodeSeedFacts(Alphabet);
    var m := EncodeSeed(Alphabet);
    forall s | s in m
      ensures s.Str? && 0 <= m[s] < 256 && CodeString([], m[s]) == s.s
    {
    }
  }

  lemma EncodedFirst(c: char)
    requires c as int < 256
    ensures Phrases([c]) == [] && Added([c]) == []
    ensures Encoded(EncodeScan([c]), [], [], [c])
  {
    assert [c][..0] == [];
    assert "" + [c] == [c];
    SeedCoded();
    assert Str([c]) in EncodeScan([]).dict;
    var st := EncodeScan([c]);
    assert st == Encoder(EncodeScan([]).dict, [c], []);
  }

  /** One more character keeps `Encoded`. */
  lemma EncodedStep(text: string, c: char)
    requires text != [] && Narrow(text) && c as int < 256
    requires Encoded(EncodeScan(text), Phrases(text), Added(text), text)
    ensures Encoded(EncodeScan(text + [c]), Phrases(text + [c]), Added(text + [c]), text + [c])
  {
    ScanLast(text, c);
    var st := EncodeScan(text);
    var wc := st.w + [c];
    if Str(wc) in st.dict {
      EncodedExtend(st, Phrases(text), Added(text), text, c);
    } else {
      assert Get(st.dict, Str(st.w)) == Some(st.dict[Str(st.w)]);
      EncodedEmit(st, Phrases(text), Added(text), text, c);
    }
  }

  /** The scan, the phrases and the added strings after one more character. */
  lemma ScanLast(text: string, c: char)
    ensures var st := EncodeScan(text); var wc := st.w + [c];
      EncodeScan(text + [c]) == EncodeStep(st, c)
      && Phrases(text + [c]) == (if Str(wc) in st.dict then Phrases(text) else Phrases(text) + [st.w])
      && Added(text + [c]) == (if Str(wc) in st.dict then Added(text) else Added(text) + [wc])
  {
    var t := text + [c];
    assert t[..|t| - 1] == text;
  }

  /** A character that extends a known phrase only lengthens the phrase. */
  lemma EncodedExtend(st: Encoder, p: seq<string>, added: seq<string>, text: string, c: char)
    requires Encoded(st, p, added, text) && Str(st.w + [c]) in st.dict
    ensures Encoded(st.(w := st.w + [c]), p, added, text + [c])
  {
    assert Flatten(p) + (st.w + [c]) == (Flatten(p) + st.w) + [c];
    ChainedGrow(p, added, st.w, c);
  }

  /** A character that does not: the phrase is emitted and the extended
      phrase gets the next code. */
  lemma EncodedEmit(st: Encoder, p: seq<string>, added: seq<string>, text: string, c: char)
    requires Encoded(st, p, added, text) && Str(st.w + [c]) !in st.dict && c as int < 256
    ensures var wc := st.w + [c];
      Encoded(Encoder(st.dict[Str(wc) := |st.dict|], [c], st.out + [Some(st.dict[Str(st.w)])]), p + [st.w], added + [wc], text + [c])
  {
    var wc := st.w + [c];
    var st' := Encoder(st.dict[Str(wc) := |st.dict|], [c], st.out + [Some(st.dict[Str(st.w)])]);
    var p' := p + [st.w];
    FlattenAppend(p, st.w);
    assert Flatten(p') + st'.w == text + [c];
    CodedAdd(st.dict, added, wc);
    SpelledAdd(st.out, p, added, st.dict[Str(st.w)], st.w, wc);
    ChainedAdd(p, added, st.w, c);
  }

  lemma {:induction false} EncodedAll(text: string)
    requires text != [] && Narrow(text)
    ensures Encoded(EncodeScan(text), Phrases(text), Added(text), text)
    decreases |text|
  {
    var front, c := text[..|text| - 1], text[|text| - 1];
    assert text == front + [c];
    if front == [] {
      assert text == [c];
      EncodedFirst(c);
    } else {
      EncodedAll(front);
      EncodedStep(front, c);
    }
  }

  /** The codes of a list in which every code is present. */
  function Unwrap(codes: seq<Option<int>>): (r: seq<int>)
    requires forall i :: 0 <= i < |codes| ==> codes[i].Some?
    ensures |r| == |codes| && forall i :: 0 <= i < |codes| ==> codes[i] == Some(r[i])
  {
    seq(|codes|, i requires 0 <= i < |codes| => codes[i].value)
  }

  /** Emitting the code of the pending phrase completes a parse. */
  lemma EncodedParse(st: Encoder, p: seq<string>, added: seq<string>, text: string)
    requires Encoded(st, p, added, text)
    ensures var codes := st.out + [Get(st.dict, Str(st.w))];
      (forall i :: 0 <= i < |codes| ==> codes[i].Some?)
      && Parse(Unwrap(codes), p + [st.w], added) && Flatten(p + [st.w]) == text
  {
    var codes := st.out + [Get(st.dict, Str(st.w))];
    var p' := p + [st.w];
    FlattenAppend(p, st.w);
    assert forall i :: 0 <= i < |codes| ==> codes[i].Some? by {
      forall i | 0 <= i < |codes| ensures codes[i].Some? {
        if i < |st.out| {
          assert codes[i] == st.out[i];
        }
      }
    }
    var u := Unwrap(codes);
    forall j | 0 <= j < |p'|
      ensures p'[j] != [] && 0 <= u[j] < 256 + j && CodeString(added, u[j]) == p'[j]
    {
      if j < |p| {
        assert codes[j] == st.out[j];
      }
    }
    assert Chained(p, added, st.w);
    forall k | 0 <= k < |added|
      ensures added[k] == p'[k] + [p'[k + 1][0]]
    {
      assert added[k] == p[k] + [Follower(p, st.w, k)[0]];
    }
  }

  /** The codes of every non-empty text of characters below 256 are all
      present, and they spell a parse of the text. */
  lemma EncodingParses(text: string)
    requires text != [] && Narrow(text)
    ensures forall i :: 0 <= i < |Encoding(text)| ==> Encoding(text)[i].Some?
    ensures Parse(Unwrap(Encoding(text)), Phrases(text) + [EncodeScan(text).w], Added(text))
    ensures Flatten(Phrases(text) + [EncodeScan(text).w]) == text
  {
    EncodedAll(text);
    EncodedParse(EncodeScan(text), Phrases(text), Added(text), text);
  }

  /** What holds of `decode`'s variables once the first `j` codes of a
      parse are consumed: `w` is the last phrase, the result lists the
      phrases so far, and the dictionary maps exactly the codes below
      256 + j - 1, each to the string it stands for. */
  ghost predicate Decoded(st: Decoder, p: seq<string>, added: seq<string>, j: nat)
    requires 1 <= j <= |p| && |added| == |p| - 1
  {
    st.w == p[j - 1]
    && st.result == p[..j]
    && |st.dict| == 256 + j - 1
    && (forall v: int :: Num(v) in st.dict <==> 0 <= v < 256 + j - 1)
    && (forall v: int :: 0 <= v < 256 + j - 1 ==> st.dict[Num(v)] == CodeString(added, v))
  }

  lemma DecodedFirst(codes: seq<int>, p: seq<string>, added: seq<string>)
    requires Parse(codes, p, added)
    ensures DecodeScan(codes[0], []).Ok? && Decoded(DecodeScan(codes[0], []).value, p, added, 1)
  {
    var c := codes[0];
    assert 0 <= c < 256 && CodeString(added, c) == p[0];
    var st := Decoder(DecodeSeed(Alphabet), [c as char], [[c as char]]);
    assert DecodeScan(c, []) == Ok(st);
    DecodeSeedFacts(Alphabet);
    forall v: int | 0 <= v < 256 ensures st.dict[Num(v)] == CodeString(added, v) {
    }
    assert st.result == p[..1];
  }

  /** One more code keeps `Decoded` when it stands for the next phrase. */
  lemma DecodeStepKeeps(st: Decoder, p: seq<string>, added: seq<string>, j: nat, k: int)
    requires 1 <= j < |p| && |added| == |p| - 1 && Decoded(st, p, added, j)
    requires p[j] != [] && added[j - 1] == p[j - 1] + [p[j][0]]
    requires 0 <= k < 256 + j && CodeString(added, k) == p[j]
    ensures DecodeStep(st, k).Ok? && Decoded(DecodeStep(st, k).value, p, added, j + 1)
  {
    var entry: Word := if Num(k) in st.dict then st.dict[Num(k)] else st.w + [st.w[0]];
    assert entry == p[j] by {
      if k == 256 + j - 1 {
        assert p[j] == p[j - 1] + [p[j][0]];
        assert p[j][0] == p[j - 1][0];
      }
    }
    var st' := DecodeStep(st, k).value;
    assert st' == Decoder(st.dict[Num(|st.dict|) := st.w + [entry[0]]], entry, st.result + [entry]);
    assert st.w + [entry[0]] == added[j - 1];
    assert p[..j + 1] == p[..j] + [p[j]];
    forall v: int | 0 <= v < 256 + j
      ensures st'.dict[Num(v)] == CodeString(added, v)
    {
      if v < 256 + j - 1 {
        assert st'.dict[Num(v)] == st.dict[Num(v)];
      }
    }
  }

  /** Scanning one more code is one more step from the state before it. */
  lemma ScanNext(codes: seq<int>, j: nat)
    requires 1 <= j < |codes| && DecodeScan(codes[0], codes[1..j]).Ok?
    ensures DecodeScan(codes[0], codes[1..j + 1]) == DecodeStep(DecodeScan(codes[0], codes[1..j]).value, codes[j])
  {
    var ks := codes[1..j + 1];
    assert ks[..|ks| - 1] == codes[1..j] && ks[|ks| - 1] == codes[j];
  }

  /** One more code of a parse keeps `Decoded`. */
  lemma DecodedStep(codes: seq<int>, p: seq<string>, added: seq<string>, j: nat)
    requires Parse(codes, p, added) && 1 <= j < |p|
    requires DecodeScan(codes[0], codes[1..j]).Ok? && Decoded(DecodeScan(codes[0], codes[1..j]).value, p, added, j)
    ensures DecodeScan(codes[0], codes[1..j + 1]).Ok? && Decoded(DecodeScan(codes[0], codes[1..j + 1]).value, p, added, j + 1)
  {
    ScanNext(codes, j);
    assert p[j] != [] && added[j - 1] == p[j - 1] + [p[j][0]];
    assert 0 <= codes[j] < 256 + j && CodeString(added, codes[j]) == p[j];
    DecodeStepKeeps(DecodeScan(codes[0], codes[1..j]).value, p, added, j, codes[j]);
  }

  lemma {:induction false} DecodedAll(codes: seq<int>, p: seq<string>, added: seq<string>, j: nat)
    requires Parse(codes, p, added) && 1 <= j <= |p|
    ensures DecodeScan(codes[0], codes[1..j]).Ok? && Decoded(DecodeScan(codes[0], codes[1..j]).value, p, added, j)
    decreases j
  {
    if j == 1 {
      assert codes[1..1] == [];
      DecodedFirst(codes, p, added);
    } else {
      DecodedAll(codes, p, added, j - 1);
      DecodedStep(codes, p, added, j - 1);
    }
  }

  /** Codes that spell a parse of some phrases decode to those phrases joined. */
  lemma DecodingParse(codes: seq<int>, p: seq<string>, added: seq<string>)
    requires Parse(codes, p, added)
    ensures Decoding(codes) == Ok(Flatten(p))
  {
    DecodedAll(codes, p, added, |p|);
    assert codes[1..|p|] == codes[1..];
    assert p[..|p|] == p;
  }

  /** Decoding undoes encoding on every non-empty text of characters below
      256; the codes are then all present. */
  lemma RoundTrip(text: string)
    requires text != [] && Narrow(text)
    ensures forall i :: 0 <= i < |Encoding(text)| ==> Encoding(text)[i].Some?
    ensures Decoding(Unwrap(Encoding(text))) == Ok(text)
  {
    EncodingParses(text);
    DecodingParse(Unwrap(Encoding(text)), Phrases(text) + [EncodeScan(text).w], Added(text));
  }

  /** The empty text encodes to no codes, and `decode` fails on them. */
  lemma EmptyText()
    ensures Encoding("") == []
    ensures Decoding(Unwrap(Encoding(""))) == Err(NoCodes)
  {
  }

  /** `decode` on two codes, a character and then a code the dictionary
      cannot explain, fails with the message naming the code. */
  lemma DecodingRejects(first: int, k: int)
    requires 0 <= first < 256 && (k < 0 || k > 256)
    ensures Decoding([first, k]) == Err(BadCode("Bad compressed k: " + IntToString(k)))
  {
    DecodeSeedFacts(Alphabet);
    assert [first, k][1..] == [k] && [k][..0] == [];
    var st := DecodeScan(first, []).value;
    assert st.dict == DecodeSeed(Alphabet);
    assert Num(k) !in st.dict && |st.dict| == 256;
    assert DecodeScan(first, [k]) == DecodeStep(st, k);
  }

  lemma DecodeScanNext(first: int, ks: seq<int>, j: nat)
    requires j < |ks|
    ensures DecodeScan(first, ks[..j + 1]) ==
      if DecodeScan(first, ks[..j]).Err? then DecodeScan(first, ks[..j]) else DecodeStep(DecodeScan(first, ks[..j]).value, ks[j])
  {
    assert ks[..j + 1][..j] == ks[..j];
  }

  /** Once `decode` has failed on a prefix of the codes it fails the same way on the whole. */
  lemma {:induction false} DecodeScanFails(first: int, ks: seq<int>, i: nat)
    requires i <= |ks| && DecodeScan(first, ks[..i]).Err?
    ensures DecodeScan(first, ks) == DecodeScan(first, ks[..i])
    decreases |ks| - i
  {
    if i < |ks| {
      assert ks[..i + 1][..i] == ks[..i];
      DecodeScanFails(first, ks, i + 1);
    } else {
      assert ks[..i] == ks;
    }
  }

  /* ---------------------------------------------------------------- */
  /* The functions over CustomDict                                     */
  /* ---------------------------------------------------------------- */

  /** The first loop of `encode`: `chr(i)` under `i` for every `i < 256`. */
  method EncodeDictionary() returns (d: CustomDict<int>)
    ensures fresh(d) && fresh(d.buckets) && d.Valid()
    ensures d.contents == EncodeSeed(Alphabet)
  {
    d := new CustomDict<int>();
    for i := 0 to Alphabet
      invariant fresh(d.buckets) && d.Valid() && d.contents == EncodeSeed(i)
    {
      d.Set(Str([i as char]), i);
    }
  }

  /** `encode(text)`. */
  method Encode(text: string) returns (result: seq<Option<int>>)
    ensures result == Encoding(text)
  {
    var dictionary := EncodeDictionary();
    var w := "";
    result := [];
    for i := 0 to |text|
      invariant fresh(dictionary.buckets) && dictionary.Valid()
      invariant EncodeScan(text[..i]) == Encoder(dictionary.contents, w, result)
    {
      var c := text[i];
      assert text[..i + 1][..i] == text[..i];
      var wc := w + [c];
      var present := dictionary.Contains(Str(wc));
      if present {
        w := wc;
      } else {
        var code := dictionary.Get(Str(w), None);
        result := result + [code];
        dictionary.ItemsAgree();
        var n := dictionary.Len();
        dictionary.Set(Str(wc), n);
        w := [c];
      }
    }
    assert text[..|text|] == text;
    if w != "" {
      var code := dictionary.Get(Str(w), None);
      result := result + [code];
    }
  }

  /** The first loop of `decode`: `i` under `chr(i)` for every `i < 256`. */
  method DecodeDictionary() returns (d: CustomDict<Word>)
    ensures fresh(d) && fresh(d.buckets) && d.Valid()
    ensures d.contents == DecodeSeed(Alphabet)
  {
    d := new CustomDict<Word>();
    for i := 0 to Alphabet
      invariant fresh(d.buckets) && d.Valid() && d.contents == DecodeSeed(i)
    {
      d.Set(Num(i), [i as char]);
    }
  }

  /** `decode(codes)`: the joined text, or the error `decode` raises. */
  method Decode(codes: seq<int>) returns (r: Result<string, DecodeError>)
    ensures r == Decoding(codes)
  {
    var dictionary := DecodeDictionary();
    if |codes| == 0 {
      return Err(NoCodes);
    }
    if !IsCodePoint(codes[0]) {
      assert codes[1..][..0] == [];
      DecodeScanFails(codes[0], codes[1..], 0);
      return Err(BadCharacter(codes[0]));
    }
    var w: Word := [codes[0] as char];
    var result: seq<Word> := [w];
    var ks := codes[1..];
    assert ks[..0] == [];
    for j := 0 to |ks|
      invariant fresh(dictionary.buckets) && dictionary.Valid()
      invariant DecodeScan(codes[0], ks[..j]) == Ok(Decoder(dictionary.contents, w, result))
    {
      DecodeScanNext(codes[0], ks, j);
      var entry := DecodeTurn(dictionary, w, ks[j], result);
      if entry.None? {
        DecodeScanFails(codes[0], ks, j + 1);
        return Err(BadCode("Bad compressed k: " + IntToString(ks[j])));
      }
      result := result + [entry.value];
      w := entry.value;
    }
    assert ks[..|ks|] == ks;
    r := Ok(Flatten(result));
  }

  /** One turn of `decode`'s loop for code `k`: the entry, after recording
      `w + entry[0]` under the next code, or None where `decode` raises. */
  method DecodeTurn(dictionary: CustomDict<Word>, w: Word, k: int, ghost result: seq<Word>) returns (entry: Option<Word>)
    requires dictionary.Valid()
    modifies dictionary, dictionary.buckets
    ensures dictionary.Valid()
    ensures var step := DecodeStep(Decoder(old(dictionary.contents), w, result), k);
      if entry.Some? then step == Ok(Decoder(dictionary.contents, entry.value, result + [entry.value]))
      else step == Err(BadCode("Bad compressed k: " + IntToString(k)))
  {
    var known := dictionary.Contains(Num(k));
    dictionary.ItemsAgree();
    var n := dictionary.Len();
    var e: Word;
    if known {
      var found := dictionary.Get(Num(k), None);
      e := found.value;
    } else if k == n {
      e := w + [w[0]];
    } else {
      return None;
    }
    dictionary.Set(Num(n), w + [e[0]]);
    entry := Some(e);
  }

  /* ---------------------------------------------------------------- */
  /* Storing codes as text                                             */
  /* ---------------------------------------------------------------- */

  /** `len(str(c))`. */
  function TextLength(c: int): nat {
    |IntToString(c)|
  }

  /** `len(str(c))` for every code, in order. */
  function Lengths(codes: seq<int>): (r: seq<nat>)
    ensures |r| == |codes| && forall i :: 0 <= i < |codes| ==> r[i] == TextLength(codes[i])
  {
    seq(|codes|, i requires 0 <= i < |codes| => TextLength(codes[i]))
  }

  /** The largest of some lengths, as the `if len(str(c)) > max_len` scan finds it; 0 for none. */
  function Longest(s: seq<nat>): (m: nat)
    ensures forall i :: 0 <= i < |s| ==> s[i] <= m
    decreases |s|
  {
    if s == [] then 0
    else
      var front := Longest(s[..|s| - 1]);
      assert forall i :: 0 <= i < |s| - 1 ==> s[..|s| - 1][i] == s[i];
      if s[|s| - 1] > front then s[|s| - 1] else front
  }

  /** The scan's result is one of the lengths, not just a bound on them. */
  lemma {:induction false} LongestAttained(s: seq<nat>)
    requires s != []
    ensures exists i :: 0 <= i < |s| && s[i] == Longest(s)
    decreases |s|
  {
    var n := |s| - 1;
    var front := s[..n];
    if front != [] && Longest(front) >= s[n] {
      LongestAttained(front);
      var i :| 0 <= i < |front| && front[i] == Longest(front);
      assert s[i] == Longest(s);
    } else {
      assert s[n] == Longest(s);
    }
  }

  /** The length of the longest `str(c)` over the codes; 0 for no codes. */
  function Width(codes: seq<int>): (w: nat)
    ensures forall i :: 0 <= i < |codes| ==> TextLength(codes[i]) <= w
    ensures codes != [] ==> w >= 1
  {
    var lengths := Lengths(codes);
    assert codes != [] ==> lengths[0] >= 1;
    Longest(lengths)
  }

  /** The width is the length of some code's text: it is the maximum, not just a bound. */
  lemma WidthAttained(codes: seq<int>)
    requires codes != []
    ensures exists i :: 0 <= i < |codes| && TextLength(codes[i]) == Width(codes)
  {
    LongestAttained(Lengths(codes));
    var i :| 0 <= i < |codes| && Lengths(codes)[i] == Width(codes);
    assert TextLength(codes[i]) == Width(codes);
  }

  /** `"0" * (width - len(s)) + s`: Python repeats a string a negative number of times as "". */
  function Pad(s: string, width: nat): (r: string)
    ensures |r| == if |s| < width then width else |s|
  {
    Zeros(if |s| < width then width - |s| else 0) + s
  }

  function Padded(codes: seq<int>, width: nat): (r: seq<string>)
    ensures |r| == |codes| && forall i :: 0 <= i < |codes| ==> r[i] == Pad(IntToString(codes[i]), width)
  {
    seq(|codes|, i requires 0 <= i < |codes| => Pad(IntToString(codes[i]), width))
  }

  /** What `save_codes` writes to its file: the width, a comma, and every
      code left-padded with zeros to that width. */
  function Saved(codes: seq<int>): (r: string)
    ensures (forall i :: 0 <= i < |codes| ==> codes[i] >= 0) ==>
      var payload := Flatten(Padded(codes, Width(codes)));
      SplitComma(r) == [NatToString(Width(codes)), payload] && AllDigits(payload)
  {
    var w := Width(codes);
    assert (forall i :: 0 <= i < |codes| ==> codes[i] >= 0) ==>
      SplitComma(NatToString(w) + "," + Flatten(Padded(codes, w))) == [NatToString(w), Flatten(Padded(codes, w))]
      && AllDigits(Flatten(Padded(codes, w))) by {
      if forall i :: 0 <= i < |codes| ==> codes[i] >= 0 {
        SavedFields(codes, w);
      }
    }
    NatToString(w) + "," + Flatten(Padded(codes, w))
  }

  /** The width and the padded codes hold no comma, so the text splits into
      exactly those two fields; the padded codes of non-negative codes are
      all digits. */
  lemma SavedFields(codes: seq<int>, w: nat)
    requires forall i :: 0 <= i < |codes| ==> codes[i] >= 0
    ensures var payload := Flatten(Padded(codes, w));
      SplitComma(NatToString(w) + "," + payload) == [NatToString(w), payload] && AllDigits(payload)
  {
    var header := NatToString(w);
    var parts := Padded(codes, w);
    var payload := Flatten(parts);
    assert ',' !in header by {
      forall i | 0 <= i < |header| ensures header[i] != ',' {
        assert IsDigit(header[i]);
      }
    }
    DigitsFlatten(parts);
    assert ',' !in payload by {
      forall i | 0 <= i < |payload| ensures payload[i] != ',' {
        assert IsDigit(payload[i]);
      }
    }
    SplitCommaPair(header, payload);
  }

  /** `save_codes(codes)`: the file contents it writes. */
  method SaveCodes(codes: seq<int>) returns (text: string)
    ensures text == Saved(codes)
  {
    var maxLen := MaxLength(codes);
    text := NatToString(maxLen) + "," + Flatten(Padded(codes, maxLen));
  }

  /** The `max_len` loop of `save_codes`. */
  method MaxLength(codes: seq<int>) returns (maxLen: nat)
    ensures maxLen == Width(codes)
  {
    ghost var lengths := Lengths(codes);
    maxLen := 0;
    for i := 0 to |codes|
      invariant maxLen == Longest(lengths[..i])
    {
      assert lengths[..i + 1][..i] == lengths[..i];
      var n := |IntToString(codes[i])|;
      assert n == lengths[i];
      if n > maxLen {
        maxLen := n;
      }
    }
    assert lengths[..|codes|] == lengths;
  }

  /** `s.split(",")`: the fields between commas; there is always at least one. */
  function SplitComma(s: string): (r: seq<string>)
    ensures |r| >= 1
    decreases |s|
  {
    if s == [] then [""]
    else
      var rest := SplitComma(s[1..]);
      if s[0] == ',' then [""] + rest else [[s[0]] + rest[0]] + rest[1..]
  }

  /** The fields of `s`, joined back with commas, give `s`. */
  lemma {:induction false} SplitCommaJoin(s: string)
    ensures JoinComma(SplitComma(s)) == s
    decreases |s|
  {
    if s != [] {
      SplitCommaJoin(s[1..]);
      var rest := SplitComma(s[1..]);
      if s[0] == ',' {
        JoinCommaCons("", rest);
      } else {
        JoinCommaCons(rest[0], rest[1..]);
        JoinCommaCons([s[0]] + rest[0], rest[1..]);
        assert rest == [rest[0]] + rest[1..];
      }
    }
  }

  /** No field holds a comma. */
  lemma {:induction false} SplitCommaFields(s: string)
    ensures forall i :: 0 <= i < |SplitComma(s)| ==> ',' !in SplitComma(s)[i]
    decreases |s|
  {
    if s != [] {
      SplitCommaFields(s[1..]);
      var rest := SplitComma(s[1..]);
      if s[0] != ',' {
        var r := SplitComma(s);
        assert r == [[s[0]] + rest[0]] + rest[1..];
        forall i | 0 <= i < |r| ensures ',' !in r[i] {
          if i > 0 {
            assert r[i] == rest[i];
          }
        }
      }
    }
  }

  /** `",".join(fields)`. */
  function JoinComma(fields: seq<string>): string
    decreases |fields|
  {
    if fields == [] then "" else if |fields| == 1 then fields[0] else fields[0] + "," + JoinComma(fields[1..])
  }

  lemma JoinCommaCons(f: string, fields: seq<string>)
    ensures JoinComma([f] + fields) == if fields == [] then f else f + "," + JoinComma(fields)
  {
    assert ([f] + fields)[1..] == fields;
  }

  /** A text made of a comma-free header, a comma and a comma-free payload
      splits into exactly those two fields. */
  lemma {:induction false} SplitCommaPair(a: string, b: string)
    requires ',' !in a && ',' !in b
    ensures SplitComma(a + "," + b) == [a, b]
    decreases |a|
  {
    if a == [] {
      assert ("" + "," + b)[1..] == b;
      SplitCommaNone(b);
    } else {
      assert (a + "," + b)[1..] == a[1..] + "," + b;
      SplitCommaPair(a[1..], b);
      assert [a[0]] + a[1..] == a;
    }
  }

  lemma {:induction false} SplitCommaNone(s: string)
    requires ',' !in s
    ensures SplitComma(s) == [s]
    decreases |s|
  {
    if s != [] {
      assert ',' !in s[1..] by {
        forall i | 0 <= i < |s[1..]| ensures s[1..][i] != ',' {
          assert s[1..][i] == s[i + 1];
        }
      }
      SplitCommaNone(s[1..]);
      assert [s[0]] + s[1..] == s;
    }
  }

  /** `[text[i:i+width] for i in range(0, len(text), width)]`: consecutive
      pieces of `width` characters, the last one possibly shorter. */
  function Chunks(s: string, width: nat): (r: seq<string>)
    requires width > 0
    ensures Flatten(r) == s
    decreases |s|
  {
    if s == [] then []
    else if |s| <= width then
      FlattenOne(s);
      [s]
    else
      var rest := Chunks(s[width..], width);
      FlattenConcat([s[..width]], rest);
      FlattenOne(s[..width]);
      [s[..width]] + rest
  }

  lemma FlattenOne(x: string)
    ensures Flatten([x]) == x
  {
    var none: seq<string> := [];
    FlattenAppend(none, x);
    assert none + [x] == [x];
  }

  /** Cutting the concatenation of pieces of one width gives the pieces back. */
  lemma {:induction false} ChunksFlatten(parts: seq<string>, width: nat)
    requires width > 0 && forall i :: 0 <= i < |parts| ==> |parts[i]| == width
    ensures Chunks(Flatten(parts), width) == parts
    decreases |parts|
  {
    if parts != [] {
      var rest := parts[1..];
      assert parts == [parts[0]] + rest;
      FlattenConcat([parts[0]], rest);
      FlattenOne(parts[0]);
      var s := Flatten(parts);
      assert s == parts[0] + Flatten(rest);
      ChunksFlatten(rest, width);
      if rest == [] {
        assert s == parts[0];
      } else {
        assert |Flatten(rest)| > 0 by {
          FlattenConcat([rest[0]], rest[1..]);
          assert rest == [rest[0]] + rest[1..];
          FlattenOne(rest[0]);
        }
        assert s[..width] == parts[0] && s[width..] == Flatten(rest);
      }
    }
  }

  /** Why `load_codes` fails: a header or a piece that `int` rejects (only
      plain digit strings are modelled as accepted), no second field, or a
      width of 0, which `range` refuses as a step. */
  datatype LoadError = NotANumber(text: string) | NoPayload | ZeroWidth

  /** `int(piece)` for every piece, in order; the first failure wins. */
  function ParseAll(pieces: seq<string>): (r: Result<seq<int>, LoadError>)
    ensures r.Ok? ==> |r.value| == |pieces| && forall i :: 0 <= i < |r.value| ==> r.value[i] >= 0
    decreases |pieces|
  {
    if pieces == [] then Ok([])
    else
      match ParseNat(pieces[0])
      case None => Err(NotANumber(pieces[0]))
      case Some(v) =>
        match ParseAll(pieces[1..])
        case Err(e) => Err(e)
        case Ok(vs) => Ok([v as int] + vs)
  }

  /** `load_codes()` on the file contents `text`. A text without a comma
      has no payload and is refused; the codes loaded are never negative. */
  function Loaded(text: string): (r: Result<seq<int>, LoadError>)
    ensures ',' !in text ==> r.Err?
    ensures r.Ok? ==> forall i :: 0 <= i < |r.value| ==> r.value[i] >= 0
  {
    var fields := SplitComma(text);
    assert ',' !in text ==> fields == [text] by {
      if ',' !in text {
        SplitCommaNone(text);
      }
    }
    match ParseNat(fields[0])
    case None => Err(NotANumber(fields[0]))
    case Some(width) =>
      if |fields| < 2 then Err(NoPayload)
      else if width == 0 then Err(ZeroWidth)
      else ParseAll(Chunks(fields[1], width))
  }

  lemma {:induction false} ParsePadded(codes: seq<int>, width: nat)
    requires forall i :: 0 <= i < |codes| ==> codes[i] >= 0
    ensures ParseAll(Padded(codes, width)) == Ok(codes)
    decreases |codes|
  {
    if codes != [] {
      var c := codes[0];
      PadParses(c, width);
      assert Padded(codes, width)[1..] == Padded(codes[1..], width);
      ParsePadded(codes[1..], width);
      assert [c] + codes[1..] == codes;
    }
  }

  /** A zero-padded code reads back as the code. */
  lemma PadParses(c: nat, width: nat)
    ensures ParseNat(Pad(IntToString(c), width)) == Some(c)
  {
    var s := IntToString(c);
    ZerosValue(if |s| < width then width - |s| else 0, s);
    NatToStringValue(c);
  }

  /** Loading what `save_codes` wrote gives the codes back, for any
      non-empty list of non-negative codes. */
  lemma SaveLoad(codes: seq<int>)
    requires codes != [] && forall i :: 0 <= i < |codes| ==> codes[i] >= 0
    ensures Loaded(Saved(codes)) == Ok(codes)
  {
    var w := Width(codes);
    var parts := Padded(codes, w);
    NatToStringValue(w);
    ChunksFlatten(parts, w);
    ParsePadded(codes, w);
  }

  lemma {:induction false} DigitsFlatten(parts: seq<string>)
    requires forall i :: 0 <= i < |parts| ==> AllDigits(parts[i])
    ensures AllDigits(Flatten(parts))
    decreases |parts|
  {
    if parts != [] {
      var front := parts[..|parts| - 1];
      DigitsFlatten(front);
      assert Flatten(parts) == Flatten(front) + parts[|parts| - 1];
      var f := Flatten(parts);
      forall i | 0 <= i < |f| ensures IsDigit(f[i]) {
        if i < |Flatten(front)| {
          assert f[i] == Flatten(front)[i];
        } else {
          assert f[i] == parts[|parts| - 1][i - |Flatten(front)|];
        }
      }
    }
  }

  /** Saving no codes writes a width of 0, which `load_codes` cannot read back. */
  lemma SaveLoadEmpty()
    ensures Saved([]) == "0,"
    ensures Loaded(Saved([])) == Err(ZeroWidth)
  {
    assert Flatten(Padded([], 0)) == [];
    SplitCommaPair("0", "");
    NatToStringValue(0);
  }
}
