/** Query strings: printing a parameter list and reading it back. */
module QueryString {
  import opened Text
  import opened Wrappers
  import opened UrlCodec

  /** trim: the ends of the non-blank text between `left` and `right`; they cross when there is none. */
  method TrimRange(s: string, left: nat, right: nat) returns (l: nat, r: nat)
    requires left <= right <= |s|
    ensures l < r <==> Trim(s[left..right]) != ""
    ensures l < r ==> r <= |s| && s[l..r] == Trim(s[left..right])
  {
    ghost var piece := s[left..right];
    l, r := left, right;
    while l < |s| && IsBlank(s[l])
      invariant left <= l <= |s|
      invariant forall k :: left <= k < l ==> IsBlank(s[k])
    {
      l := l + 1;
    }
    while r > 0 && IsBlank(s[r - 1])
      invariant 0 <= r <= right
      invariant forall k :: r <= k < right ==> IsBlank(s[k])
    {
      r := r - 1;
    }
    if l < right {
      assert piece[l - left] == s[l];
      assert left < r && l < r;
      assert piece[r - 1 - left] == s[r - 1];
      forall k | 0 <= k < l - left ensures IsBlank(piece[k]) { assert piece[k] == s[left + k]; }
      forall k | r - left <= k < |piece| ensures IsBlank(piece[k]) { assert piece[k] == s[left + k]; }
      TrimIs(piece, l - left, r - left);
      SliceOfSlice(s, left, right, l, r);
    } else {
      forall k | 0 <= k < |piece| ensures IsBlank(piece[k]) { assert piece[k] == s[left + k]; }
      TrimOfBlanks(piece);
    }
  }

  lemma SliceOfSlice(s: string, left: nat, right: nat, l: nat, r: nat)
    requires left <= l <= r <= right <= |s|
    ensures s[left..right][l - left..r - left] == s[l..r]
  {
    var a, b := s[left..right][l - left..r - left], s[l..r];
    assert |a| == |b| && forall k :: 0 <= k < |b| ==> a[k] == b[k];
  }

  lemma {:induction false} TrimIs(s: string, a: nat, b: nat)
    requires a < b <= |s| && !IsBlank(s[a]) && !IsBlank(s[b - 1])
    requires forall k :: 0 <= k < a ==> IsBlank(s[k])
    requires forall k :: b <= k < |s| ==> IsBlank(s[k])
    ensures Trim(s) == s[a..b]
    decreases a
  {
    if a == 0 {
      TrimRightIs(s, b);
    } else {
      TrimIs(s[1..], a - 1, b - 1);
      assert s[1..][a - 1..b - 1] == s[a..b];
    }
  }

  lemma {:induction false} TrimRightIs(s: string, b: nat)
    requires 0 < b <= |s| && !IsBlank(s[b - 1])
    requires forall k :: b <= k < |s| ==> IsBlank(s[k])
    ensures TrimRight(s) == s[..b]
    decreases |s|
  {
    if b < |s| {
      var t := s[..|s| - 1];
      TrimRightIs(t, b);
      assert t[..b] == s[..b];
    } else {
      assert s[..b] == s;
    }
  }

  lemma {:induction false} TrimOfBlanks(s: string)
    requires forall k :: 0 <= k < |s| ==> IsBlank(s[k])
    ensures Trim(s) == ""
    decreases |s|
  {
    if s != "" {
      TrimOfBlanks(s[1..]);
    }
  }

  function Kept(piece: string): seq<string>
  {
    if Trim(piece) == "" then [] else [Trim(piece)]
  }

  /** The trimmed non-empty fields between the delimiters. */
  function Fields(s: string, d: char): seq<string>
    decreases |s|
  {
    if s == "" then []
    else
      var i := IndexOf(s, d);
      Kept(s[..i]) + if i < |s| then Fields(s[i + 1..], d) else []
  }

  /** split */
  method Split(s: string, d: char) returns (fields: seq<string>)
    ensures fields == Fields(s, d)
  {
    hide Trim, Fields;
    fields := [];
    var i, beg := 0, 0;
    assert s[0..] == s;
    while i < |s|
      invariant 0 <= beg <= i <= |s|
      invariant forall k :: beg <= k < i ==> s[k] != d
      invariant Fields(s, d) == fields + Fields(s[beg..], d)
    {
      if s[i] == d {
        var l, r := TrimRange(s, beg, i);
        FieldsFirst(s, d, beg, i);
        fields := Keep(fields, s, l, r, s[beg..i]);
        beg := i + 1;
      }
      i := i + 1;
    }
    FieldsLast(s[beg..], d);
    assert s[beg..i] == s[beg..];
    if i > 0 {
      var l, r := TrimRange(s, beg, i);
      fields := Keep(fields, s, l, r, s[beg..]);
    } else {
      NothingKept();
    }
  }

  /** The callback of split, made when the trimmed range is not empty. */
  method Keep(fields: seq<string>, s: string, l: nat, r: nat, ghost piece: string) returns (kept: seq<string>)
    requires l < r <==> Trim(piece) != ""
    requires l < r ==> r <= |s| && s[l..r] == Trim(piece)
    ensures kept == fields + Kept(piece)
  {
    if l < r { kept := fields + [s[l..r]]; } else { kept := fields; }
  }

  lemma NothingKept()
    ensures Kept("") == []
  {
  }

  lemma FieldsFirst(s: string, d: char, beg: nat, i: nat)
    requires beg <= i < |s| && s[i] == d
    requires forall k :: beg <= k < i ==> s[k] != d
    ensures Fields(s[beg..], d) == Kept(s[beg..i]) + Fields(s[i + 1..], d)
  {
    hide Kept, IndexOf;
    SuffixParts(s, beg, i);
    IndexOfIs(s[beg..], d, i - beg);
  }

  lemma SuffixParts(s: string, beg: nat, i: nat)
    requires beg <= i < |s|
    ensures s[beg..][..i - beg] == s[beg..i] && s[beg..][i - beg + 1..] == s[i + 1..]
    ensures s[beg..][i - beg] == s[i]
    ensures forall k :: 0 <= k < i - beg ==> s[beg..][k] == s[beg + k]
  {
  }

  lemma FieldsLast(s: string, d: char)
    requires forall k :: 0 <= k < |s| ==> s[k] != d
    ensures Fields(s, d) == Kept(s)
  {
    hide Trim;
    if s == "" { NothingKept(); }
    assert s[..|s|] == s;
    IndexOfIs(s, d, |s|);
  }

  /** The parameters in the order they are printed or found; a multimap keeps equal keys in that order. */
  type Params = seq<(string, string)>

  /** The key and value of one field; a later '=' restarts the value. */
  function KeyValue(kv: string): Option<(string, string)>
  {
    var f := Fields(kv, '=');
    if f == [] then None
    else Some((DecodeUrl(f[0], true), DecodeUrl(if |f| == 1 then "" else f[|f| - 1], true)))
  }

  function Pairs(fields: seq<string>, cache: set<string>): Params
    decreases |fields|
  {
    if fields == [] then []
    else if fields[0] in cache then Pairs(fields[1..], cache)
    else
      PairOf(fields[0]) + Pairs(fields[1..], cache + {fields[0]})
  }

  function ParseQuery(s: string): Params
  {
    Pairs(Fields(s, '&'), {})
  }

  /** The inner split of parse_query_text. */
  method SplitKeyValue(kv: string) returns (key: string, val: string)
    ensures key != "" <==> KeyValue(kv).Some?
    ensures key != "" ==> KeyValue(kv) == Some((DecodeUrl(key, true), DecodeUrl(val, true)))
  {
    hide Fields, DecodeUrl;
    var f := Split(kv, '=');
    FieldsNotEmpty(kv, '=');
    key, val := "", "";
    assert forall k :: 0 <= k < |f| ==> f[k] in f;
    for i := 0 to |f|
      invariant key == if i == 0 then "" else f[0]
      invariant val == if i <= 1 then "" else f[i - 1]
    {
      if key == "" { key := f[i]; } else { val := f[i]; }
    }
  }

  lemma {:induction false} FieldsNotEmpty(s: string, d: char)
    ensures "" !in Fields(s, d)
    decreases |s|
  {
    hide Fields, Kept;
    var i := IndexOf(s, d);
    KeptNotEmpty(s[..i]);
    assert s[0..] == s && s[..|s|] == s;
    if i < |s| {
      FieldsFirst(s, d, 0, i);
      FieldsNotEmpty(s[i + 1..], d);
    } else {
      FieldsLast(s, d);
    }
  }

  lemma KeptNotEmpty(s: string)
    ensures "" !in Kept(s)
  {
    hide Trim;
  }

  function PairOf(field: string): Params
  {
    match KeyValue(field) case Some(p) => [p] case None => []
  }

  lemma PairsFrom(fields: seq<string>, i: nat, cache: set<string>, params: Params)
    requires i < |fields|
    ensures params + Pairs(fields[i..], cache)
         == if fields[i] in cache then params + Pairs(fields[i + 1..], cache)
            else params + PairOf(fields[i]) + Pairs(fields[i + 1..], cache + {fields[i]})
  {
    hide KeyValue;
    assert fields[i..][1..] == fields[i + 1..];
  }

  /** The decoded pair of one field, if it has a key. */
  method DecodePair(kv: string) returns (pair: Params)
    ensures pair == PairOf(kv)
  {
    hide Fields, KeyValue, DecodeUrl;
    var key, val := SplitKeyValue(kv);
    if key == "" { return []; }
    var k := DecodeUrlText(key, true);
    var v := DecodeUrlText(val, true);
    return [(k, v)];
  }

  /** parse_query_text */
  method ParseQueryText(s: string) returns (params: Params)
    ensures params == ParseQuery(s)
  {
    hide Fields, PairOf, Pairs;
    var cache: set<string> := {};
    var fields := Split(s, '&');
    params := [];
    var i := 0;
    while i < |fields|
      invariant 0 <= i <= |fields|
      invariant ParseQuery(s) == params + Pairs(fields[i..], cache)
    {
      var kv := fields[i];
      PairsFrom(fields, i, cache, params);
      if kv !in cache {
        cache := cache + {kv};
        var pair := DecodePair(kv);
        params := params + pair;
      }
      i := i + 1;
    }
    NoPairs(cache);
    assert fields[i..] == [] && params + [] == params;
  }

  lemma NoPairs(cache: set<string>)
    ensures Pairs([], cache) == []
  {
  }

  /** A value as the printer writes it, or as forms do. */
  function Encode(value: string, form: bool): string
    requires Bytes(value)
  {
    if form then EncodeForm(value) else EncodeQuery(value)
  }

  function PrintPair(p: (string, string), form: bool): string
    requires Bytes(p.1)
  {
    p.0 + "=" + Encode(p.1, form)
  }

  ghost predicate ByteValues(params: Params)
  {
    forall p :: p in params ==> Bytes(p.1)
  }

  function PrintQuery(params: Params, form: bool): string
    requires ByteValues(params)
    decreases |params|
  {
    if params == [] then ""
    else if |params| == 1 then PrintPair(params[0], form)
    else PrintPair(params[0], form) + "&" + PrintQuery(params[1..], form)
  }

  lemma {:induction false} PrintQuerySnoc(params: Params, p: (string, string), form: bool)
    requires ByteValues(params) && Bytes(p.1)
    ensures ByteValues(params + [p])
    ensures PrintQuery(params + [p], form)
         == PrintQuery(params, form) + (if params == [] then "" else "&") + PrintPair(p, form)
    decreases |params|
  {
    hide PrintPair;
    assert ByteValues(params + [p]);
    if params == [] {
      assert params + [p] == [p];
    } else {
      assert (params + [p])[1..] == params[1..] + [p];
      PrintQuerySnoc(params[1..], p, form);
    }
  }

  /** params_to_query_str */
  method ParamsToQueryStr(params: Params) returns (query: string)
    requires ByteValues(params)
    ensures query == PrintQuery(params, false)
  {
    query := "";
    for i := 0 to |params|
      invariant ByteValues(params[..i]) && query == PrintQuery(params[..i], false)
    {
      PrintQuerySnoc(params[..i], params[i], false);
      assert params[..i + 1] == params[..i] + [params[i]];
      if i != 0 { query := query + "&"; }
      query := query + params[i].0;
      query := query + "=";
      var v := EncodeQueryParam(params[i].1);
      query := query + v;
    }
    assert params[..|params|] == params;
  }

  /** Keys are printed as they are, so they must be readable as they are. */
  predicate PlainKey(key: string)
  {
    && key != "" && Trimmed(key)
    && '&' !in key && '=' !in key && '%' !in key && '+' !in key
  }

  ghost predicate PlainParams(params: Params)
  {
    ByteValues(params) && forall p :: p in params ==> PlainKey(p.0)
  }

  /** Text that can stand between delimiters. */
  predicate Undelimited(s: string)
  {
    forall c :: c in s ==> c != '&' && c != '=' && !IsBlank(c)
  }

  lemma EncodedChar(c: char)
    requires IsByte(c)
    ensures Undelimited(EncodeChar(c)) && EncodeChar(c) != ""
  {
    assert forall n :: 0 <= n < 16 ==> IsAlnum(UpperHexDigit(n));
    assert '&' !in "-_.!~*'()" && '=' !in "-_.!~*'()" && ' ' !in "-_.!~*'()" && '\t' !in "-_.!~*'()";
  }

  lemma {:induction false} EncodedChars(value: string, form: bool)
    requires Bytes(value)
    ensures Undelimited(Encode(value, form))
    ensures value == "" <==> Encode(value, form) == ""
    decreases |value|
  {
    hide EncodeChar;
    if value != "" {
      EncodedChar(value[0]);
      EncodedChars(value[1..], form);
    }
  }

  lemma DecodeEncodedValue(value: string, form: bool)
    requires Bytes(value)
    ensures DecodeUrl(Encode(value, form), true) == value
  {
    if form { DecodeForm(value); } else { DecodeEncoded(value, true); }
  }

  lemma KeyValueOfPrinted(p: (string, string), form: bool)
    requires Bytes(p.1) && PlainKey(p.0)
    ensures KeyValue(PrintPair(p, form)) == Some(p)
    ensures PrintPair(p, form) != "" && Trimmed(PrintPair(p, form)) && '&' !in PrintPair(p, form)
  {
    hide Trim, Encode, DecodeUrl, Fields;
    var v := Encode(p.1, form);
    var s := PrintPair(p, form);
    EncodedChars(p.1, form);
    assert v != "" ==> v[0] in v && v[|v| - 1] in v;
    FieldsOfPair(p.0, v);
    DecodePlain(p.0, true);
    DecodeEncodedValue(p.1, form);
    assert s[0] == p.0[0];
    assert v != "" ==> s[|s| - 1] == v[|v| - 1];
  }

  lemma FieldsOfPair(key: string, v: string)
    requires PlainKey(key) && Undelimited(v)
    ensures Fields(key + "=" + v, '=') == [key] + if v == "" then [] else [v]
  {
    hide Trim;
    var s := key + "=" + v;
    assert v != "" ==> v[0] in v && v[|v| - 1] in v;
    assert s[..|key|] == key && s[|key|] == '=' && s[|key| + 1..] == v;
    TrimOfTrimmed(key);
    TrimOfTrimmed(v);
    forall k | 0 <= k < |v| ensures v[k] != '=' { assert v[k] in v; }
    forall k | 0 <= k < |key| ensures s[k] != '=' { assert s[k] == key[k] && key[k] in key; }
    IndexOfIs(s, '=', |key|);
    FieldsLast(v, '=');
  }

  function Printed(params: Params, form: bool): seq<string>
    requires ByteValues(params)
  {
    if params == [] then [] else [PrintPair(params[0], form)] + Printed(params[1..], form)
  }

  lemma {:induction false} FieldsOfPrinted(params: Params, form: bool)
    requires PlainParams(params)
    ensures Fields(PrintQuery(params, form), '&') == Printed(params, form)
    decreases |params|
  {
    hide Trim, PrintPair;
    if params != [] {
      var p := params[0];
      var kv := PrintPair(p, form);
      KeyValueOfPrinted(p, form);
      TrimOfTrimmed(kv);
      if |params| == 1 {
        FieldsLast(kv, '&');
        assert params[1..] == [];
      } else {
        var s := PrintQuery(params, form);
        FieldsOfPrinted(params[1..], form);
        assert s[..|kv|] == kv && s[|kv|] == '&' && s[|kv| + 1..] == PrintQuery(params[1..], form);
        IndexOfIs(s, '&', |kv|);
      }
    }
  }

  /** The list without the pairs that occur earlier in it or in `seen`. */
  function FirstOnly(params: Params, seen: set<(string, string)>): Params
    decreases |params|
  {
    if params == [] then []
    else if params[0] in seen then FirstOnly(params[1..], seen)
    else [params[0]] + FirstOnly(params[1..], seen + {params[0]})
  }

  ghost predicate Matches(cache: set<string>, seen: set<(string, string)>, form: bool)
  {
    forall p: (string, string) :: Bytes(p.1) && PlainKey(p.0) ==> (p in seen <==> PrintPair(p, form) in cache)
  }

  lemma PrintPairInjective(p: (string, string), q: (string, string), form: bool)
    requires Bytes(p.1) && PlainKey(p.0) && Bytes(q.1) && PlainKey(q.0) && PrintPair(p, form) == PrintPair(q, form)
    ensures p == q
  {
    KeyValueOfPrinted(p, form);
    KeyValueOfPrinted(q, form);
  }

  lemma {:induction false} PairsOfPrinted(params: Params, cache: set<string>, seen: set<(string, string)>, form: bool)
    requires PlainParams(params) && Matches(cache, seen, form)
    ensures Pairs(Printed(params, form), cache) == FirstOnly(params, seen)
    decreases |params|
  {
    hide KeyValue, PrintPair;
    if params != [] {
      var p := params[0];
      var kv := PrintPair(p, form);
      KeyValueOfPrinted(p, form);
      assert Printed(params, form)[1..] == Printed(params[1..], form);
      if p in seen {
        PairsOfPrinted(params[1..], cache, seen, form);
      } else {
        forall q: (string, string) | Bytes(q.1) && PlainKey(q.0) && PrintPair(q, form) == kv ensures q == p {
          PrintPairInjective(p, q, form);
        }
        PairsOfPrinted(params[1..], cache + {kv}, seen + {p}, form);
      }
    }
  }

  /** Reading a printed query gives the printed pairs, each repeated pair once. */
  lemma QueryRoundTrip(params: Params, form: bool)
    requires PlainParams(params)
    ensures ParseQuery(PrintQuery(params, form)) == FirstOnly(params, {})
  {
    FieldsOfPrinted(params, form);
    PairsOfPrinted(params, {}, {}, form);
  }

  predicate Distinct(params: Params)
  {
    forall i, j :: 0 <= i < j < |params| ==> params[i] != params[j]
  }

  predicate Avoids(params: Params, seen: set<(string, string)>)
  {
    forall i :: 0 <= i < |params| ==> params[i] !in seen
  }

  lemma DistinctCons(params: Params, seen: set<(string, string)>)
    requires params != []
    ensures Distinct(params) && Avoids(params, seen)
        <==> params[0] !in seen && Distinct(params[1..]) && Avoids(params[1..], seen + {params[0]})
  {
    var p, rest := params[0], params[1..];
    assert params == [p] + rest;
    if p !in seen && Distinct(rest) && Avoids(rest, seen + {p}) {
      forall i, j | 0 <= i < j < |params| ensures params[i] != params[j] {
        assert params[j] == rest[j - 1];
        if i > 0 { assert params[i] == rest[i - 1]; }
      }
      forall i | 0 <= i < |params| ensures params[i] !in seen {
        if i > 0 { assert params[i] == rest[i - 1]; }
      }
    }
    if Distinct(params) && Avoids(params, seen) {
      forall i, j | 0 <= i < j < |rest| ensures rest[i] != rest[j] {
        assert rest[i] == params[i + 1] && rest[j] == params[j + 1];
      }
      forall i | 0 <= i < |rest| ensures rest[i] !in seen + {p} {
        assert rest[i] == params[i + 1];
      }
    }
  }

  lemma {:induction false} FirstOnlyExact(params: Params, seen: set<(string, string)>)
    ensures |FirstOnly(params, seen)| <= |params|
    ensures FirstOnly(params, seen) == params <==> Distinct(params) && Avoids(params, seen)
    decreases |params|
  {
    if params != [] {
      var rest := params[1..];
      DistinctCons(params, seen);
      if params[0] in seen {
        FirstOnlyExact(rest, seen);
      } else {
        FirstOnlyExact(rest, seen + {params[0]});
        assert params == [params[0]] + rest;
        assert FirstOnly(params, seen)[1..] == FirstOnly(rest, seen + {params[0]});
      }
    }
  }

  /** A printed parameter list reads back if and only if no pair is repeated. */
  lemma QueryReadsBackExactly(params: Params, form: bool)
    requires PlainParams(params)
    ensures ParseQuery(PrintQuery(params, form)) == params <==> Distinct(params)
  {
    QueryRoundTrip(params, form);
    FirstOnlyExact(params, {});
  }

  /** Pieces with a delimiter between them. */
  function Join(pieces: seq<string>, d: char): string
  {
    if pieces == [] then "" else if |pieces| == 1 then pieces[0] else pieces[0] + [d] + Join(pieces[1..], d)
  }

  function AllKept(pieces: seq<string>): seq<string>
  {
    if pieces == [] then [] else Kept(pieces[0]) + AllKept(pieces[1..])
  }

  /** The fields of joined pieces are the pieces, trimmed, without the empty ones. */
  lemma {:induction false} FieldsOfJoined(pieces: seq<string>, d: char)
    requires forall p :: p in pieces ==> d !in p
    ensures Fields(Join(pieces, d), d) == AllKept(pieces)
    decreases |pieces|
  {
    hide Kept, Fields;
    if pieces == [] {
      NothingKept();
      FieldsLast("", d);
    } else {
      var p := pieces[0];
      assert p in pieces;
      if |pieces| == 1 {
        FieldsLast(p, d);
        assert pieces[1..] == [];
      } else {
        var s := Join(pieces, d);
        assert s == p + [d] + Join(pieces[1..], d);
        assert s[0..] == s && s[0..|p|] == p && s[|p|] == d && s[|p| + 1..] == Join(pieces[1..], d);
        FieldsFirst(s, d, 0, |p|);
        FieldsOfJoined(pieces[1..], d);
      }
    }
  }

  /** Of several values of one field the last counts. */
  lemma LastValueCounts(key: string, v: string, w: string)
    requires '=' !in key && '=' !in v && '=' !in w && Trim(key) != "" && Trim(w) != ""
    ensures KeyValue(key + "=" + v + "=" + w) == Some((DecodeUrl(Trim(key), true), DecodeUrl(Trim(w), true)))
  {
    hide Trim, DecodeUrl, Fields;
    var pieces := [key, v, w];
    assert pieces[1..][1..][1..] == [];
    assert Join(pieces[1..], '=') == v + ['='] + Join([w], '=');
    assert Join(pieces, '=') == key + "=" + v + "=" + w;
    FieldsOfJoined(pieces, '=');
    ThreeKept(key, v, w);
  }

  lemma ThreeKept(a: string, b: string, c: string)
    ensures AllKept([a, b, c]) == Kept(a) + Kept(b) + Kept(c)
  {
    hide Kept;
    assert [a, b, c][1..] == [b, c] && [b, c][1..] == [c] && [c][1..] == [];
    assert AllKept([c]) == Kept(c) + [];
  }
}
