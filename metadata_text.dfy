/**
 * The free-text metadata field submitted by every add/edit form, read with the
 * grammar `pair (, pair)*` where `pair = key ":" value`.  The blob is split on
 * every comma, each token is stripped of surrounding whitespace, tokens without
 * a ':' are dropped, and a kept token is cut at its FIRST ':' into a key and a
 * value, each stripped again.
 */
module MetadataText {

  /** A key/value pair; a Metadata row holds exactly one. */
  datatype Pair = Pair(key: string, value: string)

  /** The characters Python's `str.isspace()` accepts, i.e. what `strip()` removes. */
  const Whitespace: set<char> :=
    {' ', '\t', '\n', '\U{B}', '\U{C}', '\r', '\U{1C}', '\U{1D}', '\U{1E}', '\U{1F}',
     '\U{85}', '\U{A0}', '\U{1680}', '\U{2000}', '\U{2001}', '\U{2002}', '\U{2003}',
     '\U{2004}', '\U{2005}', '\U{2006}', '\U{2007}', '\U{2008}', '\U{2009}', '\U{200A}',
     '\U{2028}', '\U{2029}', '\U{202F}', '\U{205F}', '\U{3000}'}

  predicate IsSpace(c: char) {
    c in Whitespace
  }

  /** Neither starts nor ends with whitespace. */
  predicate Stripped(s: string) {
    s == [] || (!IsSpace(s[0]) && !IsSpace(s[|s| - 1]))
  }

  function TrimStart(s: string): (r: string)
    ensures |r| <= |s| && r == s[|s| - |r|..]
    ensures r == [] || !IsSpace(r[0])
  {
    if s != [] && IsSpace(s[0]) then TrimStart(s[1..]) else s
  }

  function TrimEnd(s: string): (r: string)
    ensures |r| <= |s| && r == s[..|r|]
    ensures r == [] || !IsSpace(r[|r| - 1])
  {
    if s != [] && IsSpace(s[|s| - 1]) then TrimEnd(s[..|s| - 1]) else s
  }

  /** Every character of `t` is whitespace. */
  predicate AllSpace(t: string) {
    forall c :: c in t ==> IsSpace(c)
  }

  /** `TrimStart` removes whitespace only. */
  lemma {:induction false} TrimStartSpaces(s: string)
    ensures AllSpace(s[..|s| - |TrimStart(s)|])
  {
    if s != [] && IsSpace(s[0]) {
      TrimStartSpaces(s[1..]);
      var k := |s| - |TrimStart(s)|;
      assert s[..k] == [s[0]] + s[1..][..k - 1];
    }
  }

  /** `TrimEnd` removes whitespace only. */
  lemma {:induction false} TrimEndSpaces(s: string)
    ensures AllSpace(s[|TrimEnd(s)|..])
  {
    if s != [] && IsSpace(s[|s| - 1]) {
      var init := s[..|s| - 1];
      TrimEndSpaces(init);
      var k := |TrimEnd(s)|;
      assert s[k..] == init[k..] + [s[|s| - 1]];
    }
  }

  /**
   * Python's `str.strip()`: leading whitespace goes first, then trailing
   * whitespace, one character at a time.
   */
  function Strip(s: string): (r: string)
    ensures Stripped(r)
    decreases |s|
  {
    if s != [] && IsSpace(s[0]) then Strip(s[1..])
    else if s != [] && IsSpace(s[|s| - 1]) then Strip(s[..|s| - 1])
    else s
  }

  /** `strip()` is `lstrip()` followed by `rstrip()`. */
  lemma {:induction false} StripTrims(s: string)
    ensures Strip(s) == TrimEnd(TrimStart(s))
    decreases |s|
  {
    if s != [] && IsSpace(s[0]) {
      StripTrims(s[1..]);
    } else if s != [] && IsSpace(s[|s| - 1]) {
      var init := s[..|s| - 1];
      StripTrims(init);
      assert init == [] || init[0] == s[0];
    }
  }

  /**
   * What `strip()` removes: `s` is some whitespace, then `Strip(s)`, then some
   * whitespace.
   */
  lemma StripShape(s: string)
    ensures var r, lo := Strip(s), |s| - |TrimStart(s)|;
            && lo + |r| <= |s| && s[lo..lo + |r|] == r
            && AllSpace(s[..lo]) && AllSpace(s[lo + |r|..])
  {
    var head := TrimStart(s);
    var r := TrimEnd(head);
    assert Strip(s) == r by {
      StripTrims(s);
    }
    TrimShape(s, head, r);
  }

  lemma TrimShape(s: string, head: string, r: string)
    requires head == TrimStart(s) && r == TrimEnd(head)
    ensures var lo := |s| - |head|;
            && lo + |r| <= |s| && s[lo..lo + |r|] == r
            && AllSpace(s[..lo]) && AllSpace(s[lo + |r|..])
  {
    var lo := |s| - |head|;
    InfixOfSuffix(s, head, r);
    TrimStartSpaces(s);
    TrimEndSpaces(head);
    assert s[lo + |r|..] == head[|r|..];
  }

  /** A prefix of a suffix of `s` is an infix of `s`. */
  lemma InfixOfSuffix(s: string, head: string, r: string)
    requires |head| <= |s| && head == s[|s| - |head|..]
    requires |r| <= |head| && r == head[..|r|]
    ensures var lo := |s| - |head|;
            r == s[lo..lo + |r|]
  {
  }

  /** Stripping never introduces a character. */
  lemma {:induction false} StripKeepsOut(s: string, c: char)
    requires c !in s
    ensures c !in Strip(s)
    decreases |s|
  {
    if s != [] && IsSpace(s[0]) {
      assert c !in s[1..] by {
        assert forall x :: x in s[1..] ==> x in s;
      }
      StripKeepsOut(s[1..], c);
    } else if s != [] && IsSpace(s[|s| - 1]) {
      assert c !in s[..|s| - 1] by {
        assert forall x :: x in s[..|s| - 1] ==> x in s;
      }
      StripKeepsOut(s[..|s| - 1], c);
    }
  }

  /** A string without surrounding whitespace is its own strip. */
  lemma StripFixed(s: string)
    requires Stripped(s)
    ensures Strip(s) == s
  {
  }

  /** Stripping twice is stripping once. */
  lemma StripIdempotent(s: string)
    ensures Strip(Strip(s)) == Strip(s)
  {
    StripFixed(Strip(s));
  }

  /** Python's `s.split(sep)`: the pieces between separators, at least one of them. */
  function Split(s: string, sep: char): (parts: seq<string>)
    ensures |parts| >= 1
  {
    if s == [] then [[]]
    else if s[0] == sep then [[]] + Split(s[1..], sep)
    else
      var rest := Split(s[1..], sep);
      [[s[0]] + rest[0]] + rest[1..]
  }

  /** No piece holds the separator. */
  lemma {:induction false} SplitPiecesFree(s: string, sep: char)
    ensures forall i :: 0 <= i < |Split(s, sep)| ==> sep !in Split(s, sep)[i]
  {
    if s != [] {
      SplitPiecesFree(s[1..], sep);
    }
  }

  /** Python's `sep.join(parts)`. */
  function Join(parts: seq<string>, sep: char): string {
    if parts == [] then []
    else if |parts| == 1 then parts[0]
    else parts[0] + [sep] + Join(parts[1..], sep)
  }

  /** Splitting loses nothing: joining the pieces gives the blob back. */
  lemma {:induction false} SplitJoin(s: string, sep: char)
    ensures Join(Split(s, sep), sep) == s
  {
    if s == [] {
    } else if s[0] == sep {
      SplitJoin(s[1..], sep);
      assert s == [sep] + s[1..];
    } else {
      SplitJoin(s[1..], sep);
      var rest := Split(s[1..], sep);
      if |rest| == 1 {
        assert s == [s[0]] + rest[0];
      } else {
        assert Join(rest, sep) == rest[0] + [sep] + Join(rest[1..], sep);
        assert s == [s[0]] + s[1..];
      }
    }
  }

  /** A separator splits the blob into independent halves. */
  lemma {:induction false} SplitAround(a: string, b: string, sep: char)
    ensures Split(a + [sep] + b, sep) == Split(a, sep) + Split(b, sep)
  {
    var whole := a + [sep] + b;
    if a == [] {
      assert whole == [sep] + b;
    } else {
      SplitAround(a[1..], b, sep);
      assert whole[0] == a[0] && whole[1..] == a[1..] + [sep] + b;
      if a[0] != sep {
        SplitGlue(a, b, sep);
      }
    }
  }

  lemma SplitGlue(a: string, b: string, sep: char)
    requires a != [] && a[0] != sep
    requires Split(a[1..] + [sep] + b, sep) == Split(a[1..], sep) + Split(b, sep)
    ensures Split(a + [sep] + b, sep) == Split(a, sep) + Split(b, sep)
  {
    var whole := a + [sep] + b;
    assert whole[0] == a[0] && whole[1..] == a[1..] + [sep] + b;
    SplitHead(whole, sep);
    SplitHead(a, sep);
    GluePieces(a[0], Split(a[1..], sep), Split(b, sep));
  }

  /** One unfolding of `Split` on a blob that starts with an ordinary character. */
  lemma SplitHead(s: string, sep: char)
    requires s != [] && s[0] != sep
    ensures Split(s, sep) == [[s[0]] + Split(s[1..], sep)[0]] + Split(s[1..], sep)[1..]
  {
  }

  lemma GluePieces(c: char, ra: seq<string>, rb: seq<string>)
    requires |ra| >= 1
    ensures [[c] + (ra + rb)[0]] + (ra + rb)[1..] == [[c] + ra[0]] + ra[1..] + rb
  {
    assert (ra + rb)[1..] == ra[1..] + rb;
  }

  /** A piece without the separator splits into itself. */
  lemma {:induction false} SplitNone(s: string, sep: char)
    requires sep !in s
    ensures Split(s, sep) == [s]
  {
    if s != [] {
      SplitNone(s[1..], sep);
      assert s == [s[0]] + s[1..];
    }
  }

  /** Joining pieces without the separator and splitting again gives the pieces back. */
  lemma {:induction false} JoinSplit(parts: seq<string>, sep: char)
    requires |parts| >= 1
    requires forall i :: 0 <= i < |parts| ==> sep !in parts[i]
    ensures Split(Join(parts, sep), sep) == parts
  {
    if |parts| == 1 {
      SplitNone(parts[0], sep);
    } else {
      JoinSplit(parts[1..], sep);
      SplitAround(parts[0], Join(parts[1..], sep), sep);
      SplitNone(parts[0], sep);
      assert parts == [parts[0]] + parts[1..];
    }
  }

  /** The index of the first occurrence of `c` in `s`. */
  function FirstIndexOf(s: string, c: char): (i: nat)
    requires c in s
    ensures i < |s| && s[i] == c
  {
    if s[0] == c then 0 else 1 + FirstIndexOf(s[1..], c)
  }

  /** No earlier `c`: the index found is the first one. */
  lemma {:induction false} FirstIndexIsFirst(s: string, c: char)
    requires c in s
    ensures c !in s[..FirstIndexOf(s, c)]
  {
    if s[0] != c {
      FirstIndexIsFirst(s[1..], c);
      assert s[..FirstIndexOf(s, c)] == [s[0]] + s[1..][..FirstIndexOf(s[1..], c)];
    }
  }

  /** `key, value = token.split(':', 1)`, each side stripped. */
  function PairOf(token: string): Pair
    requires ':' in token
  {
    var i := FirstIndexOf(token, ':');
    Pair(Strip(token[..i]), Strip(token[i + 1..]))
  }

  /** `[pair.strip() for pair in blob.split(',')]` */
  function Tokens(blob: string): (tokens: seq<string>)
    ensures |tokens| == |Split(blob, ',')|
  {
    var parts := Split(blob, ',');
    seq(|parts|, i requires 0 <= i < |parts| => Strip(parts[i]))
  }

  /** The loop over the tokens: those holding a ':' become pairs, the others are skipped. */
  function KeepPairs(tokens: seq<string>): seq<Pair> {
    if tokens == [] then []
    else if ':' in tokens[0] then [PairOf(tokens[0])] + KeepPairs(tokens[1..])
    else KeepPairs(tokens[1..])
  }

  /** The pairs a metadata blob denotes (the `if metadata_str:` guard included). */
  function ParsePairs(blob: string): seq<Pair> {
    if blob == [] then [] else KeepPairs(Tokens(blob))
  }

  /**
   * What any parsed pair looks like: the key holds neither ':' nor ',', the
   * value holds no ',', and neither has surrounding whitespace.
   */
  predicate WellFormed(p: Pair) {
    ':' !in p.key && ',' !in p.key && ',' !in p.value && Stripped(p.key) && Stripped(p.value)
  }

  /** The inverse of the parser: `key:value` pairs joined by commas. */
  function Render(p: Pair): string {
    p.key + ":" + p.value
  }

  function Format(ps: seq<Pair>): string {
    Join(seq(|ps|, i requires 0 <= i < |ps| => Render(ps[i])), ',')
  }

  /** Every kept token is cut at its first ':' into a well-formed pair. */
  lemma PairOfWellFormed(token: string)
    requires ':' in token && ',' !in token && Stripped(token)
    ensures WellFormed(PairOf(token))
  {
    var i := FirstIndexOf(token, ':');
    FirstIndexIsFirst(token, ':');
    assert forall c :: c in token[..i] ==> c in token;
    assert forall c :: c in token[i + 1..] ==> c in token;
    StripKeepsOut(token[..i], ':');
    StripKeepsOut(token[..i], ',');
    StripKeepsOut(token[i + 1..], ',');
  }

  lemma {:induction false} KeepPairsWellFormed(tokens: seq<string>)
    requires forall i :: 0 <= i < |tokens| ==> ',' !in tokens[i] && Stripped(tokens[i])
    ensures forall p :: p in KeepPairs(tokens) ==> WellFormed(p)
  {
    if tokens != [] {
      KeepPairsWellFormed(tokens[1..]);
      if ':' in tokens[0] {
        PairOfWellFormed(tokens[0]);
      }
    }
  }

  /** Every pair the parser yields is well formed; in particular a key never holds ':'. */
  lemma ParsedWellFormed(blob: string)
    ensures forall p :: p in ParsePairs(blob) ==> WellFormed(p)
  {
    if blob != [] {
      var parts := Split(blob, ',');
      var tokens := Tokens(blob);
      SplitPiecesFree(blob, ',');
      forall i | 0 <= i < |tokens| ensures ',' !in tokens[i] && Stripped(tokens[i]) {
        StripKeepsOut(parts[i], ',');
      }
      KeepPairsWellFormed(tokens);
    }
  }

  /** A token becomes a pair exactly when it holds a ':'; the others are silently dropped. */
  lemma {:induction false} KeepPairsMembers(tokens: seq<string>)
    ensures forall p :: p in KeepPairs(tokens) <==>
                        exists i :: 0 <= i < |tokens| && ':' in tokens[i] && PairOf(tokens[i]) == p
    ensures |KeepPairs(tokens)| <= |tokens|
  {
    if tokens != [] {
      var rest := tokens[1..];
      KeepPairsMembers(rest);
      forall p | p in KeepPairs(tokens)
        ensures exists i :: 0 <= i < |tokens| && ':' in tokens[i] && PairOf(tokens[i]) == p
      {
        if !(':' in tokens[0] && PairOf(tokens[0]) == p) {
          var j :| 0 <= j < |rest| && ':' in rest[j] && PairOf(rest[j]) == p;
          assert rest[j] == tokens[j + 1];
        }
      }
      forall i | 0 <= i < |tokens| && ':' in tokens[i] ensures PairOf(tokens[i]) in KeepPairs(tokens) {
        if i > 0 {
          assert rest[i - 1] == tokens[i];
        }
      }
    }
  }

  /** Parsing is exactly "keep the tokens with a ':' and cut each at its first ':'". */
  lemma ParsedMembers(blob: string)
    ensures forall p :: p in ParsePairs(blob) <==>
                        exists i :: 0 <= i < |Tokens(blob)| && ':' in Tokens(blob)[i]
                                    && PairOf(Tokens(blob)[i]) == p
  {
    KeepPairsMembers(Tokens(blob));
    if blob == [] {
      assert Tokens(blob) == [""];
    }
  }

  /** Only the first ':' cuts: `"a: b:c"` has the key `a` and the value `b:c`. */
  lemma CutAtFirstColon()
    ensures PairOf("a: b:c") == Pair("a", "b:c")
  {
    var t := "a: b:c";
    assert FirstIndexOf(t, ':') == 1 by {
      assert t[0] != ':' && t[1..][0] == ':';
    }
    assert Strip(t[..1]) == "a" by {
      assert t[..1] == "a" && !IsSpace('a');
      StripFixed("a");
    }
    assert Strip(t[2..]) == "b:c" by {
      assert t[2..] == " b:c" && IsSpace(' ') && " b:c"[1..] == "b:c";
      assert !IsSpace('b') && !IsSpace('c');
      StripFixed("b:c");
    }
  }

  /** A blob without any ':' yields no pair at all, however many commas it has. */
  lemma NoColonNoPairs(blob: string)
    requires ':' !in blob
    ensures ParsePairs(blob) == []
  {
    if blob != [] {
      var parts := Split(blob, ',');
      SplitJoin(blob, ',');
      forall i | 0 <= i < |parts| ensures ':' !in Tokens(blob)[i] {
        JoinHolds(parts, ',', i, ':');
        StripKeepsOut(parts[i], ':');
      }
      KeepNone(Tokens(blob));
    }
  }

  lemma {:induction false} KeepNone(tokens: seq<string>)
    requires forall i :: 0 <= i < |tokens| ==> ':' !in tokens[i]
    ensures KeepPairs(tokens) == []
  {
    if tokens != [] {
      KeepNone(tokens[1..]);
    }
  }

  /** A character of any piece occurs in the joined string. */
  lemma {:induction false} JoinHolds(parts: seq<string>, sep: char, i: nat, c: char)
    requires i < |parts| && c !in Join(parts, sep)
    ensures c !in parts[i]
  {
    if |parts| > 1 {
      assert Join(parts, sep) == parts[0] + [sep] + Join(parts[1..], sep);
      if i > 0 {
        JoinHolds(parts[1..], sep, i - 1, c);
      }
    }
  }

  /** One step of `KeepPairs`: the first token contributes a pair exactly when it holds ':'. */
  lemma KeepPairsCons(t: string, rest: seq<string>)
    ensures KeepPairs([t] + rest) == (if ':' in t then [PairOf(t)] else []) + KeepPairs(rest)
  {
    assert ([t] + rest)[0] == t;
    assert ([t] + rest)[1..] == rest;
  }

  /** The loop's step: one more token adds its pair, if it has one. */
  lemma KeepPairsSnoc(tokens: seq<string>, t: string)
    ensures KeepPairs(tokens + [t]) == KeepPairs(tokens) + (if ':' in t then [PairOf(t)] else [])
  {
    KeepPairsAppend(tokens, [t]);
    KeepPairsCons(t, []);
    assert [t] + [] == [t];
  }

  lemma {:induction false} KeepPairsAppend(a: seq<string>, b: seq<string>)
    ensures KeepPairs(a + b) == KeepPairs(a) + KeepPairs(b)
  {
    if a == [] {
      assert a + b == b;
    } else {
      KeepPairsAppend(a[1..], b);
      assert a == [a[0]] + a[1..];
      assert a + b == [a[0]] + (a[1..] + b);
      KeepPairsCons(a[0], a[1..]);
      KeepPairsCons(a[0], a[1..] + b);
    }
  }

  /** The empty-blob guard only skips work: an empty blob parses to nothing anyway. */
  lemma ParseUnguarded(blob: string)
    ensures ParsePairs(blob) == KeepPairs(Tokens(blob))
  {
    if blob == [] {
      assert Tokens(blob) == [""];
    }
  }

  /**
   * Each comma-separated piece is read on its own: the pairs of `a,b` are the
   * pairs of `a` followed by the pairs of `b`.
   */
  lemma ParseConcat(a: string, b: string)
    ensures ParsePairs(a + "," + b) == ParsePairs(a) + ParsePairs(b)
  {
    SplitAround(a, b, ',');
    var pa, pb := Split(a, ','), Split(b, ',');
    assert Tokens(a + "," + b) == Tokens(a) + Tokens(b) by {
      assert Split(a + "," + b, ',') == pa + pb;
    }
    KeepPairsAppend(Tokens(a), Tokens(b));
    ParseUnguarded(a);
    ParseUnguarded(b);
    ParseUnguarded(a + "," + b);
  }

  lemma RenderedToken(p: Pair)
    requires WellFormed(p)
    ensures ':' in Render(p) && ',' !in Render(p) && Stripped(Render(p))
    ensures PairOf(Render(p)) == p
  {
    RenderedShape(p);
    RenderedCut(p);
  }

  lemma RenderedShape(p: Pair)
    requires WellFormed(p)
    ensures ':' in Render(p) && ',' !in Render(p) && Stripped(Render(p))
  {
    var t := Render(p);
    assert t[|p.key|] == ':';
    assert !IsSpace(':');
    assert t[0] == if p.key == [] then ':' else p.key[0];
    assert t[|t| - 1] == if p.value == [] then ':' else p.value[|p.value| - 1];
    forall i | 0 <= i < |t| ensures t[i] != ',' {
      if i < |p.key| {
        assert t[i] == p.key[i];
      } else if i > |p.key| {
        assert t[i] == p.value[i - |p.key| - 1];
      }
    }
  }

  lemma RenderedCut(p: Pair)
    requires WellFormed(p)
    ensures ':' in Render(p)
    ensures PairOf(Render(p)) == p
  {
    var t := Render(p);
    assert t[|p.key|] == ':';
    assert t[..|p.key|] == p.key && t[|p.key| + 1..] == p.value;
    FirstColonAfterKey(p);
    StripFixed(p.key);
    StripFixed(p.value);
  }

  lemma FirstColonAfterKey(p: Pair)
    requires ':' !in p.key
    ensures ':' in Render(p) && FirstIndexOf(Render(p), ':') == |p.key|
  {
    assert Render(p)[|p.key|] == ':';
    FirstIndexPast(p.key, ':', p.value);
  }

  /** The first `c` of `k + [c] + v` is the one after `k` when `k` holds none. */
  lemma {:induction false} FirstIndexPast(k: string, c: char, v: string)
    requires c !in k
    ensures c in k + [c] + v && FirstIndexOf(k + [c] + v, c) == |k|
  {
    var s := k + [c] + v;
    assert s[|k|] == c;
    if k != [] {
      assert s[0] == k[0];
      assert s[1..] == k[1..] + [c] + v;
      FirstIndexPast(k[1..], c, v);
    }
  }

  lemma {:induction false} KeepRendered(ts: seq<string>, ps: seq<Pair>)
    requires |ts| == |ps|
    requires forall i :: 0 <= i < |ps| ==> WellFormed(ps[i]) && ts[i] == Render(ps[i])
    ensures KeepPairs(ts) == ps
  {
    if ps != [] {
      var ts', ps' := ts[1..], ps[1..];
      assert KeepPairs(ts') == ps' by {
        forall i | 0 <= i < |ps'| ensures WellFormed(ps'[i]) && ts'[i] == Render(ps'[i]) {
          assert ps'[i] == ps[i + 1] && ts'[i] == ts[i + 1];
        }
        KeepRendered(ts', ps');
      }
      assert KeepPairs(ts) == [ps[0]] + KeepPairs(ts') by {
        KeepRenderedHead(ts[0], ps[0], ts');
        assert ts == [ts[0]] + ts';
      }
      assert ps == [ps[0]] + ps';
    }
  }

  lemma KeepRenderedHead(t: string, p: Pair, rest: seq<string>)
    requires WellFormed(p) && t == Render(p)
    ensures KeepPairs([t] + rest) == [p] + KeepPairs(rest)
  {
    RenderedToken(p);
    KeepPairsCons(t, rest);
  }

  /** Round trip: well-formed pairs, rendered and parsed again, come back unchanged. */
  lemma FormatParse(ps: seq<Pair>)
    requires forall p :: p in ps ==> WellFormed(p)
    ensures ParsePairs(Format(ps)) == ps
  {
    if ps != [] {
      var rendered := seq(|ps|, i requires 0 <= i < |ps| => Render(ps[i]));
      forall i | 0 <= i < |ps| ensures ',' !in rendered[i] {
        RenderedToken(ps[i]);
      }
      JoinSplit(rendered, ',');
      RenderedToken(ps[0]);
      assert Format(ps) != [] by {
        if |ps| == 1 {
          assert Format(ps) == rendered[0];
        } else {
          assert Format(ps) == rendered[0] + [','] + Join(rendered[1..], ',');
        }
      }
      var ts := Tokens(Format(ps));
      forall i | 0 <= i < |ps| ensures ts[i] == Render(ps[i]) {
        RenderedToken(ps[i]);
        StripFixed(Render(ps[i]));
      }
      KeepRendered(ts, ps);
    }
  }

  /** Parsing normalises: re-parsing the rendering of a parse changes nothing. */
  lemma ParseNormalises(blob: string)
    ensures ParsePairs(Format(ParsePairs(blob))) == ParsePairs(blob)
  {
    ParsedWellFormed(blob);
    FormatParse(ParsePairs(blob));
  }
}
