/**
 * The response cache's key: normalizedCacheKey in api/internal/handlers/middleware.go, with the
 * query parsing and encoding of Go's net/url that it goes through. Strings are byte strings.
 */
module CacheKeys {
  import opened Collections
  import opened Wrappers
  import opened StringOrder

  /** A parsed query: every name with its values in their order. */
  type Query = map<string, seq<string>>

  predicate AllBytes(s: string) { forall i :: 0 <= i < |s| ==> s[i] as int < 256 }

  predicate AllAreBytes(values: seq<string>) { forall i :: 0 <= i < |values| ==> AllBytes(values[i]) }

  predicate GoodName(name: string, values: seq<string>) { AllBytes(name) && values != [] && AllAreBytes(values) }

  predicate WellFormed(q: Query) { forall k :: k in q ==> GoodName(k, q[k]) }

  predicate NamesOf(names: seq<string>, q: Query) { forall i :: 0 <= i < |names| ==> names[i] in q }

  // ---------------------------------------------------------------- escaping

  predicate IsUnreserved(c: char) {
    'a' <= c <= 'z' || 'A' <= c <= 'Z' || '0' <= c <= '9' || c in {'-', '_', '.', '~'}
  }

  function HexDigit(n: nat): char
    requires n < 16
  {
    if n < 10 then ('0' as int + n) as char else ('A' as int + n - 10) as char
  }

  function FromHex(c: char): Option<nat> {
    if '0' <= c <= '9' then Some(c as int - '0' as int)
    else if 'A' <= c <= 'F' then Some(c as int - 'A' as int + 10)
    else if 'a' <= c <= 'f' then Some(c as int - 'a' as int + 10)
    else None
  }

  function EscapeByte(c: char): string
    requires c as int < 256
  {
    if IsUnreserved(c) then [c]
    else if c == ' ' then "+"
    else ['%', HexDigit(c as int / 16), HexDigit(c as int % 16)]
  }

  function Escape(s: string): string
    requires AllBytes(s)
  {
    if s == "" then "" else EscapeByte(s[0]) + Escape(s[1..])
  }

  /** None for a '%' that two hexadecimal digits do not follow. */
  function Unescape(s: string): Option<string> {
    if s == "" then Some("")
    else if s[0] == '%' then
      if |s| < 3 || FromHex(s[1]).None? || FromHex(s[2]).None? then None
      else
        var rest := Unescape(s[3..]);
        if rest.None? then None else Some([(FromHex(s[1]).value * 16 + FromHex(s[2]).value) as char] + rest.value)
    else
      var rest := Unescape(s[1..]);
      if rest.None? then None else Some([if s[0] == '+' then ' ' else s[0]] + rest.value)
  }

  /** A letter, a digit or one of - . _ ~, by its code: the unreserved characters of section 2.3 of RFC 3986. */
  predicate Plain(code: int) {
    48 <= code <= 57 || 65 <= code <= 90 || 97 <= code <= 122 || code in {45, 46, 95, 126}
  }

  /** The codes of the hexadecimal digits, in either case. */
  predicate Denotes(digit: char, value: nat) {
    if value < 10 then digit as int == 48 + value else value < 16 && (digit as int == 55 + value || digit as int == 87 + value)
  }

  /** Unreserved characters stand for themselves, a space becomes a plus, any other byte a percent and two capital digits. */
  lemma EscapedExactly(c: char)
    requires c as int < 256
    ensures Plain(c as int) ==> EscapeByte(c) == [c]
    ensures c == ' ' ==> EscapeByte(c) == "+"
    ensures !Plain(c as int) && c != ' ' ==>
              var e := EscapeByte(c);
              && |e| == 3 && e[0] == '%' && Denotes(e[1], c as int / 16) && Denotes(e[2], c as int % 16)
              && e[1] < 'a' && e[2] < 'a'
  {
  }

  lemma HexIsRead(digit: char, value: nat)
    requires Denotes(digit, value)
    ensures FromHex(digit) == Some(value)
  {
  }

  lemma UnescapePercent(s: string, high: nat, low: nat)
    requires |s| >= 3 && s[0] == '%' && FromHex(s[1]) == Some(high) && FromHex(s[2]) == Some(low)
    requires high < 16 && low < 16 && Unescape(s[3..]).Some?
    ensures Unescape(s) == Some([(high * 16 + low) as char] + Unescape(s[3..]).value)
  {
  }

  /** Read back, digits may be of either case. */
  lemma UnescapedExactly(n: nat, tail: string, h: char, l: char)
    requires n < 256 && Denotes(h, n / 16) && Denotes(l, n % 16) && Unescape(tail).Some?
    ensures Unescape(['%', h, l] + tail) == Some([n as char] + Unescape(tail).value)
  {
    HexIsRead(h, n / 16);
    HexIsRead(l, n % 16);
    var s := ['%', h, l] + tail;
    assert s[3..] == tail;
    UnescapePercent(s, n / 16, n % 16);
  }

  /** A plus is read as a space. */
  lemma PlusIsSpace(tail: string)
    requires Unescape(tail).Some?
    ensures Unescape("+" + tail) == Some(" " + Unescape(tail).value)
  {
    assert ("+" + tail)[1..] == tail;
  }

  lemma UnescapeByte(c: char, tail: string)
    requires c as int < 256 && Unescape(tail).Some?
    ensures Unescape(EscapeByte(c) + tail) == Some([c] + Unescape(tail).value)
  {
    var head := EscapeByte(c);
    var s := head + tail;
    assert s[|head|..] == tail && s[0] == head[0];
    if head[0] == '%' {
      assert s[1] == HexDigit(c as int / 16) && s[2] == HexDigit(c as int % 16);
    }
  }

  lemma {:induction false} UnescapeEscape(s: string)
    requires AllBytes(s)
    ensures Unescape(Escape(s)) == Some(s)
  {
    if s != "" {
      UnescapeEscape(s[1..]);
      UnescapeByte(s[0], Escape(s[1..]));
      assert s == [s[0]] + s[1..];
    }
  }

  /** Characters that an escaped text may contain. */
  predicate IsPlain(c: char) { IsUnreserved(c) || c == '+' || c == '%' }

  lemma {:induction false} EscapeIsPlain(s: string)
    requires AllBytes(s)
    ensures forall i :: 0 <= i < |Escape(s)| ==> IsPlain(Escape(s)[i])
  {
    if s != "" {
      EscapeIsPlain(s[1..]);
      var head := EscapeByte(s[0]);
      assert forall i :: 0 <= i < |head| ==> IsPlain(head[i]);
    }
  }

  lemma {:induction false} UnescapeIsBytes(s: string)
    requires AllBytes(s)
    ensures Unescape(s).Some? ==> AllBytes(Unescape(s).value)
  {
    if s != "" {
      if s[0] != '%' {
        UnescapeIsBytes(s[1..]);
      } else if |s| >= 3 {
        UnescapeIsBytes(s[3..]);
      }
    }
  }

  // ---------------------------------------------------------------- splitting

  function Split(s: string, separator: char): (pieces: seq<string>)
    ensures pieces != []
  {
    if s == "" then [""]
    else
      var rest := Split(s[1..], separator);
      if s[0] == separator then [""] + rest else [[s[0]] + rest[0]] + rest[1..]
  }

  lemma {:induction false} SplitPiece(a: string, separator: char, b: string)
    requires separator !in a
    ensures Split(a, separator) == [a]
    ensures Split(a + [separator] + b, separator) == [a] + Split(b, separator)
  {
    if a == "" {
      assert ("" + [separator] + b)[1..] == b;
    } else {
      SplitPiece(a[1..], separator, b);
      assert (a + [separator] + b)[1..] == a[1..] + [separator] + b;
      assert a == [a[0]] + a[1..];
    }
  }

  function Join(pieces: seq<string>): string {
    if pieces == [] then "" else if |pieces| == 1 then pieces[0] else pieces[0] + "&" + Join(pieces[1..])
  }

  lemma {:induction false} SplitJoin(pieces: seq<string>)
    requires pieces != [] && forall i :: 0 <= i < |pieces| ==> '&' !in pieces[i]
    ensures Split(Join(pieces), '&') == pieces
  {
    if |pieces| == 1 {
      SplitPiece(pieces[0], '&', "");
    } else {
      SplitJoin(pieces[1..]);
      SplitPiece(pieces[0], '&', Join(pieces[1..]));
      assert pieces == [pieces[0]] + pieces[1..];
    }
  }

  // ---------------------------------------------------------------- parsing

  /** Name and value around the first '='; without one the value is empty. */
  function Cut(piece: string): (string, string) {
    if piece == "" then ("", "")
    else if piece[0] == '=' then ("", piece[1..])
    else var rest := Cut(piece[1..]); ([piece[0]] + rest.0, rest.1)
  }

  /** A piece without an equals sign is a name with an empty value. */
  lemma {:induction false} CutWithoutValue(piece: string)
    requires '=' !in piece
    ensures Cut(piece) == (piece, "")
  {
    if piece != "" {
      CutWithoutValue(piece[1..]);
      assert piece == [piece[0]] + piece[1..];
    }
  }

  function Appended(q: Query, name: string, value: string): Query {
    q[name := (if name in q then q[name] else []) + [value]]
  }

  /** One piece of the query; a piece that is empty, holds a semicolon or is badly escaped is dropped. */
  function Added(q: Query, piece: string): Query {
    if piece == "" || ';' in piece then q
    else
      var name, value := Unescape(Cut(piece).0), Unescape(Cut(piece).1);
      if name.None? || value.None? then q else Appended(q, name.value, value.value)
  }

  /** The pieces added one after the other. */
  function Gathered(add: (Query, string) -> Query, pieces: seq<string>): Query {
    if pieces == [] then map[] else add(Gathered(add, pieces[..|pieces| - 1]), pieces[|pieces| - 1])
  }

  function Parse(raw: string): Query { Gathered(Added, Split(raw, '&')) }

  lemma {:induction false} CutIsBytes(piece: string)
    requires AllBytes(piece)
    ensures AllBytes(Cut(piece).0) && AllBytes(Cut(piece).1)
  {
    if piece != "" && piece[0] != '=' {
      CutIsBytes(piece[1..]);
    }
  }

  lemma {:induction false} SplitIsBytes(s: string)
    requires AllBytes(s)
    ensures forall i :: 0 <= i < |Split(s, '&')| ==> AllBytes(Split(s, '&')[i])
  {
    if s != "" {
      SplitIsBytes(s[1..]);
    }
  }

  lemma {:induction false} GatheredIsWellFormed(pieces: seq<string>)
    requires forall i :: 0 <= i < |pieces| ==> AllBytes(pieces[i])
    ensures WellFormed(Gathered(Added, pieces))
  {
    if pieces != [] {
      var piece := pieces[|pieces| - 1];
      GatheredIsWellFormed(pieces[..|pieces| - 1]);
      CutIsBytes(piece);
      UnescapeIsBytes(Cut(piece).0);
      UnescapeIsBytes(Cut(piece).1);
    }
  }

  lemma ParseIsWellFormed(raw: string)
    requires AllBytes(raw)
    ensures WellFormed(Parse(raw))
  {
    SplitIsBytes(raw);
    GatheredIsWellFormed(Split(raw, '&'));
  }

  // ---------------------------------------------------------------- encoding

  function Pair(name: string, value: string): string
    requires AllBytes(name) && AllBytes(value)
  {
    Escape(name) + "=" + Escape(value)
  }

  function PairsOf(name: string, values: seq<string>): (pairs: seq<string>)
    requires AllBytes(name) && AllAreBytes(values)
    ensures |pairs| == |values| && forall i :: 0 <= i < |pairs| ==> pairs[i] == Pair(name, values[i])
  {
    seq(|values|, i requires 0 <= i < |values| => Pair(name, values[i]))
  }

  function Pairs(q: Query, names: seq<string>): seq<string>
    requires WellFormed(q) && NamesOf(names, q)
  {
    if names == [] then []
    else
      var last := names[|names| - 1];
      Pairs(q, names[..|names| - 1]) + PairsOf(last, q[last])
  }

  /** The names in order, each with its values. */
  ghost function Encoded(q: Query): string
    requires WellFormed(q)
  {
    var names := InOrder(q.Keys);
    assert forall i :: 0 <= i < |names| ==> names[i] in names;
    Join(Pairs(q, names))
  }

  lemma {:induction false} CutAt(a: string, b: string)
    requires '=' !in a
    ensures Cut(a + "=" + b) == (a, b)
  {
    if a == "" {
      assert ("" + "=" + b)[1..] == b;
    } else {
      CutAt(a[1..], b);
      assert (a + "=" + b)[1..] == a[1..] + "=" + b;
      assert a == [a[0]] + a[1..];
    }
  }

  lemma PairIsPlain(name: string, value: string)
    requires AllBytes(name) && AllBytes(value)
    ensures Pair(name, value) != ""
    ensures '&' !in Pair(name, value) && ';' !in Pair(name, value) && '?' !in Pair(name, value)
  {
    EscapeIsPlain(name);
    EscapeIsPlain(value);
    var pair := Pair(name, value);
    forall i | 0 <= i < |pair| ensures IsPlain(pair[i]) || pair[i] == '=' {
    }
  }

  lemma AddedPair(q: Query, name: string, value: string)
    requires AllBytes(name) && AllBytes(value)
    ensures Added(q, Pair(name, value)) == Appended(q, name, value)
  {
    PairIsPlain(name, value);
    EscapeIsPlain(name);
    CutAt(Escape(name), Escape(value));
    UnescapeEscape(name);
    UnescapeEscape(value);
  }

  /** A new name and its values, or nothing at all. */
  function With(q: Query, name: string, values: seq<string>): Query {
    if values == [] then q else q[name := values]
  }

  lemma AppendedToWith(q: Query, name: string, values: seq<string>, value: string)
    requires name !in q
    ensures Appended(With(q, name, values), name, value) == With(q, name, values + [value])
  {
  }

  /** Adding each of these pairs appends the value it stands for. */
  ghost predicate AddsInTurn(add: (Query, string) -> Query, pairs: seq<string>, name: string, values: seq<string>) {
    |pairs| == |values| && forall q, i :: 0 <= i < |pairs| ==> add(q, pairs[i]) == Appended(q, name, values[i])
  }

  lemma {:induction false} GatheredName(
      add: (Query, string) -> Query, pieces: seq<string>, pairs: seq<string>, name: string, values: seq<string>)
    requires AddsInTurn(add, pairs, name, values) && name !in Gathered(add, pieces)
    ensures Gathered(add, pieces + pairs) == With(Gathered(add, pieces), name, values)
  {
    if values == [] {
      assert pieces + pairs == pieces;
    } else {
      var n := |values| - 1;
      GatheredName(add, pieces, pairs[..n], name, values[..n]);
      assert (pieces + pairs)[..|pieces + pairs| - 1] == pieces + pairs[..n];
      AppendedToWith(Gathered(add, pieces), name, values[..n], values[n]);
      assert values == values[..n] + [values[n]];
    }
  }

  lemma PairsAddInTurn(name: string, values: seq<string>)
    requires AllBytes(name) && AllAreBytes(values)
    ensures AddsInTurn(Added, PairsOf(name, values), name, values)
  {
    forall q, i | 0 <= i < |values| ensures Added(q, PairsOf(name, values)[i]) == Appended(q, name, values[i]) {
      AddedPair(q, name, values[i]);
    }
  }

  /** The part of a query under these names. */
  function Within(q: Query, names: seq<string>): Query { map k | k in q && k in names :: q[k] }

  lemma IncreasingIsDistinct(names: seq<string>)
    requires Increasing(names)
    ensures Distinct(names)
  {
    forall i, j | 0 <= i < j < |names| ensures names[i] != names[j] {
      StringBeforeConnected(names[i], names[j]);
    }
  }

  lemma {:induction false} GatheredPairs(q: Query, names: seq<string>)
    requires WellFormed(q) && Distinct(names) && NamesOf(names, q)
    ensures Gathered(Added, Pairs(q, names)) == Within(q, names)
  {
    if names != [] {
      var init, last := names[..|names| - 1], names[|names| - 1];
      assert names == init + [last];
      assert NamesOf(init, q) && Distinct(init) && last !in init;
      GatheredPairs(q, init);
      GatheredNext(q, Pairs(q, init), init, last);
      assert Pairs(q, names) == Pairs(q, init) + PairsOf(last, q[last]);
    }
  }

  lemma GatheredNext(q: Query, pieces: seq<string>, names: seq<string>, name: string)
    requires name in q && GoodName(name, q[name]) && name !in names && Gathered(Added, pieces) == Within(q, names)
    ensures Gathered(Added, pieces + PairsOf(name, q[name])) == Within(q, names + [name])
  {
    PairsAddInTurn(name, q[name]);
    GatheredName(Added, pieces, PairsOf(name, q[name]), name, q[name]);
    WithinMore(q, names, name);
  }

  lemma WithinMore(q: Query, names: seq<string>, name: string)
    requires name in q && q[name] != []
    ensures Within(q, names + [name]) == With(Within(q, names), name, q[name])
  {
  }

  lemma {:induction false} PairsArePlain(q: Query, names: seq<string>)
    requires WellFormed(q) && NamesOf(names, q)
    ensures forall i :: 0 <= i < |Pairs(q, names)| ==> '&' !in Pairs(q, names)[i] && '?' !in Pairs(q, names)[i]
    ensures names != [] ==> Pairs(q, names) != []
  {
    if names != [] {
      var last := names[|names| - 1];
      PairsArePlain(q, names[..|names| - 1]);
      forall i | 0 <= i < |q[last]| ensures '&' !in PairsOf(last, q[last])[i] && '?' !in PairsOf(last, q[last])[i] {
        PairIsPlain(last, q[last][i]);
      }
    }
  }

  /** Encoding loses nothing: parsing the encoded query gives the query back. */
  lemma ParseEncoded(q: Query)
    requires WellFormed(q)
    ensures Parse(Encoded(q)) == q
  {
    var names := InOrder(q.Keys);
    assert forall i :: 0 <= i < |names| ==> names[i] in names;
    IncreasingIsDistinct(names);
    GatheredPairs(q, names);
    PairsArePlain(q, names);
    assert Within(q, names) == q;
    var pairs := Pairs(q, names);
    if pairs != [] {
      SplitJoin(pairs);
    } else {
      assert Split("", '&') == [""] && [""][..0] == [];
    }
  }

  // ---------------------------------------------------------------- the key

  /** The key of a request for this path and raw query. */
  ghost function KeyOf(path: string, raw: string): string
    requires AllBytes(raw)
  {
    ParseIsWellFormed(raw);
    if raw == "" then path else path + "?" + Encoded(Parse(raw))
  }

  /** One name with its values, in their order. */
  method EncodeName(name: string, values: seq<string>) returns (pairs: seq<string>)
    requires GoodName(name, values)
    ensures pairs == PairsOf(name, values)
  {
    pairs := [];
    for j := 0 to |values|
      invariant |pairs| == j && forall k :: 0 <= k < j ==> pairs[k] == Pair(name, values[k])
    {
      pairs := pairs + [Pair(name, values[j])];
    }
  }

  /** url.Values.Encode. */
  method Encode(q: Query) returns (s: string)
    requires WellFormed(q)
    ensures s == Encoded(q)
  {
    var names := SortedKeys(q);
    IncreasingUnique(names, InOrder(q.Keys));
    var pieces: seq<string> := [];
    assert NamesOf(names, q);
    for i := 0 to |names|
      invariant NamesOf(names, q) && NamesOf(names[..i], q)
      invariant pieces == Pairs(q, names[..i])
    {
      assert names[..i + 1][..i] == names[..i];
      var more := EncodeName(names[i], q[names[i]]);
      pieces := pieces + more;
    }
    assert names[..|names|] == names;
    s := Join(pieces);
  }

  method NormalizedCacheKey(path: string, raw: string) returns (key: string)
    requires AllBytes(raw)
    ensures key == KeyOf(path, raw)
  {
    if raw == "" {
      return path;
    }
    ParseIsWellFormed(raw);
    var query := Encode(Parse(raw));
    key := path + "?" + query;
  }

  lemma {:induction false} JoinHasNoQuestionMark(pieces: seq<string>)
    requires forall i :: 0 <= i < |pieces| ==> '?' !in pieces[i]
    ensures '?' !in Join(pieces)
  {
    if |pieces| > 1 {
      JoinHasNoQuestionMark(pieces[1..]);
    }
  }

  /** An encoded query holds no question mark. */
  lemma EncodedHasNoQuestionMark(q: Query)
    requires WellFormed(q)
    ensures '?' !in Encoded(q)
  {
    var names := InOrder(q.Keys);
    assert forall i :: 0 <= i < |names| ==> names[i] in names;
    PairsArePlain(q, names);
    JoinHasNoQuestionMark(Pairs(q, names));
  }

  /** The last question mark splits a key in only one way. */
  lemma SplitAtQuestionMark(p: string, a: string, q: string, b: string)
    requires '?' !in a && '?' !in b && p + "?" + a == q + "?" + b
    ensures p == q && a == b
  {
    var s := p + "?" + a;
    assert s[|p|] == '?' && s[|q|] == '?';
    assert forall k :: |p| < k < |s| ==> s[k] == a[k - |p| - 1] && s[k] != '?';
    assert forall k :: |q| < k < |s| ==> s[k] == b[k - |q| - 1] && s[k] != '?';
    assert |p| == |q|;
    assert s[..|p|] == p && s[..|q|] == q;
    assert s[|p| + 1..] == a && s[|q| + 1..] == b;
  }

  /** The first request has no query, and its path spells out the other's path and encoded query. */
  ghost predicate Spells(path: string, raw: string, otherPath: string, otherRaw: string)
    requires AllBytes(raw) && AllBytes(otherRaw)
  {
    ParseIsWellFormed(otherRaw);
    raw == "" && otherRaw != "" && path == otherPath + "?" + Encoded(Parse(otherRaw))
  }

  /** The requests name the same path, and their queries parse alike, whatever the order of the parameters. */
  predicate SameRequest(path: string, raw: string, otherPath: string, otherRaw: string) {
    path == otherPath && Parse(raw) == Parse(otherRaw) && (raw == "" <==> otherRaw == "")
  }

  /**
   * Two requests share a key exactly when they ask for the same, or one of them has no query and a
   * path that spells out the other's path and encoded query, question mark included.
   */
  lemma SameKeyExactly(path: string, raw: string, otherPath: string, otherRaw: string)
    requires AllBytes(raw) && AllBytes(otherRaw)
    ensures KeyOf(path, raw) == KeyOf(otherPath, otherRaw)
            <==> SameRequest(path, raw, otherPath, otherRaw)
                 || Spells(path, raw, otherPath, otherRaw) || Spells(otherPath, otherRaw, path, raw)
  {
    ParseIsWellFormed(raw);
    ParseIsWellFormed(otherRaw);
    if KeyOf(path, raw) == KeyOf(otherPath, otherRaw) && raw != "" && otherRaw != "" {
      EncodedHasNoQuestionMark(Parse(raw));
      EncodedHasNoQuestionMark(Parse(otherRaw));
      SplitAtQuestionMark(path, Encoded(Parse(raw)), otherPath, Encoded(Parse(otherRaw)));
      ParseEncoded(Parse(raw));
      ParseEncoded(Parse(otherRaw));
    }
  }

  lemma {:induction false} JoinIsBytes(pieces: seq<string>)
    requires forall i :: 0 <= i < |pieces| ==> pieces[i] != "" && AllBytes(pieces[i])
    ensures AllBytes(Join(pieces)) && (pieces != [] ==> Join(pieces) != "")
  {
    if |pieces| > 1 {
      JoinIsBytes(pieces[1..]);
    }
  }

  lemma {:induction false} PairsAreBytes(q: Query, names: seq<string>)
    requires WellFormed(q) && NamesOf(names, q)
    ensures forall i :: 0 <= i < |Pairs(q, names)| ==> Pairs(q, names)[i] != "" && AllBytes(Pairs(q, names)[i])
  {
    if names != [] {
      var last := names[|names| - 1];
      PairsAreBytes(q, names[..|names| - 1]);
      forall i | 0 <= i < |q[last]|
        ensures PairsOf(last, q[last])[i] != "" && AllBytes(PairsOf(last, q[last])[i])
      {
        EscapeIsPlain(last);
        EscapeIsPlain(q[last][i]);
      }
    }
  }

  /** A question mark inside a (decoded) path makes it share the key of a path with a query. */
  lemma QuestionMarkInPathShares(path: string, q: Query)
    requires WellFormed(q) && q != map[]
    ensures AllBytes(Encoded(q)) && KeyOf(path + "?" + Encoded(q), "") == KeyOf(path, Encoded(q))
  {
    var names := InOrder(q.Keys);
    assert forall i :: 0 <= i < |names| ==> names[i] in names;
    var k :| k in q;
    assert k in names;
    PairsArePlain(q, names);
    PairsAreBytes(q, names);
    JoinIsBytes(Pairs(q, names));
    ParseEncoded(q);
  }
}
