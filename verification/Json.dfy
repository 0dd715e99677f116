/**
  JSON trees and JSON Pointer (sections 3 and 4 of RFC 6901), as the signer evaluates it, and the
  dotted field names the demo accepts in its place.
  */
module Json {
  import opened Bytes
  import opened Utf8

  const SLASH: Scalar := 47
  const TILDE: Scalar := 126
  const DOT: Scalar := 46
  const PLUS: Scalar := 43
  const ZERO: Scalar := 48
  const ONE: Scalar := 49

  /** A number is kept as the text it prints as. */
  datatype Json =
    | Null
    | Bool(b: bool)
    | Number(printed: Text)
    | String(s: Text)
    | Array(items: seq<Json>)
    | Object(members: map<Text, Json>)

  /** Scalars render to text; arrays and objects do not. */
  function Render(j: Json): Option<Text> {
    match j
    case String(s) => Some(s)
    case Number(n) => Some(n)
    case Bool(b) => Some(if b then Ascii("true") else Ascii("false"))
    case Null => Some(Ascii("null"))
    case _ => None
  }

  /** What a scalar says: a string itself, a number its digits, and the words for the rest. */
  predicate Spells(j: Json, t: Text) {
    match j
    case String(s) => t == s
    case Number(n) => t == n
    case Bool(b) => t == if b then [116, 114, 117, 101] else [102, 97, 108, 115, 101]
    case Null => t == [110, 117, 108, 108]
    case Array(_) => false
    case Object(_) => false
  }

  lemma RenderSpells(j: Json, t: Text)
    ensures Render(j) == Some(t) <==> Spells(j, t)
  {
    assert Ascii("true") == [116, 114, 117, 101];
    assert Ascii("false") == [102, 97, 108, 115, 101];
    assert Ascii("null") == [110, 117, 108, 108];
  }

  // ---- Stepwise lookup ---------------------------------------------------------------------

  predicate AllDigits(t: Text) {
    forall i :: 0 <= i < |t| ==> ZERO <= t[i] <= 57
  }

  function Digits(t: Text): nat
    requires AllDigits(t)
  {
    if t == [] then 0 else 10 * Digits(t[..|t| - 1]) + (t[|t| - 1] - 48)
  }

  /** Array indices: decimal, no sign, no leading zero, within 64 bits. */
  function ParseIndex(t: Text): Option<nat> {
    if t == [] || t[0] == PLUS || (t[0] == ZERO && |t| != 1) then None
    else if !AllDigits(t) || Digits(t) >= TWO_64 then None
    else Some(Digits(t))
  }

  /** Decimal notation. */
  function Decimal(n: nat): (t: Text)
    ensures t != []
  {
    if n < 10 then [48 + n] else Decimal(n / 10) + [48 + n % 10]
  }

  lemma {:induction false} DecimalDigits(n: nat)
    ensures AllDigits(Decimal(n)) && Digits(Decimal(n)) == n
    ensures Decimal(n)[0] == ZERO ==> |Decimal(n)| == 1
  {
    var t := Decimal(n);
    if n >= 10 {
      DecimalDigits(n / 10);
      assert t[..|t| - 1] == Decimal(n / 10);
    } else {
      assert Digits(t[..0]) == 0;
    }
  }

  lemma {:induction false} DecimalSnoc(m: nat, d: nat)
    requires m > 0 && d < 10
    ensures Decimal(10 * m + d) == Decimal(m) + [48 + d]
  {
    assert (10 * m + d) / 10 == m && (10 * m + d) % 10 == d;
  }

  lemma {:induction false} DigitsDecimal(t: Text)
    requires t != [] && AllDigits(t) && (t[0] == ZERO ==> |t| == 1)
    ensures Decimal(Digits(t)) == t
    ensures t[0] != ZERO ==> Digits(t) > 0
  {
    var n := |t| - 1;
    if n > 0 {
      DigitsDecimal(t[..n]);
      DecimalSnoc(Digits(t[..n]), t[n] - 48);
      assert t == t[..n] + [t[n]];
    } else {
      assert Digits(t[..0]) == 0;
      assert t == [t[0]];
    }
  }

  /** Exactly the decimal notations of 64-bit numbers are indices, each of the number it denotes. */
  lemma IndexExact(t: Text, n: nat)
    ensures ParseIndex(t) == Some(n) <==> n < TWO_64 && t == Decimal(n)
  {
    DecimalDigits(n);
    if ParseIndex(t).Some? {
      DigitsDecimal(t);
    }
  }

  function Child(j: Json, key: Text): Option<Json> {
    match j
    case Object(m) => if key in m then Some(m[key]) else None
    case Array(items) =>
      (match ParseIndex(key)
       case None => None
       case Some(i) => if i < |items| then Some(items[i]) else None)
    case _ => None
  }

  /** Descend by one key after another. */
  function Lookup(j: Json, keys: seq<Text>): Option<Json>
    decreases |keys|
  {
    if keys == [] then Some(j)
    else
      match Child(j, keys[0])
      case None => None
      case Some(next) => Lookup(next, keys[1..])
  }

  // ---- Where a lookup leads ----------------------------------------------------------------

  /** One level around a value: a member among others of an object, or an item between others of an array. */
  datatype Place = Member(name: Text, others: map<Text, Json>) | Item(before: seq<Json>, after: seq<Json>)
  {
    function Around(j: Json): Json {
      match this
      case Member(name, others) => Object(others[name := j])
      case Item(before, after) => Array(before + [j] + after)
    }

    function Key(): Text {
      match this
      case Member(name, _) => name
      case Item(before, _) => Decimal(|before|)
    }

    predicate Indexable() {
      Item? ==> |before| < TWO_64
    }
  }

  /** The document that holds `v` in these places, outermost first. */
  function Nest(places: seq<Place>, v: Json): Json {
    if places == [] then v else places[0].Around(Nest(places[1..], v))
  }

  function Keys(places: seq<Place>): seq<Text> {
    if places == [] then [] else [places[0].Key()] + Keys(places[1..])
  }

  predicate AllIndexable(places: seq<Place>) {
    forall place :: place in places ==> place.Indexable()
  }

  /** `j` is `v` wrapped in places that answer to `keys`. */
  ghost predicate Leads(j: Json, keys: seq<Text>, v: Json) {
    exists places :: AllIndexable(places) && Keys(places) == keys && Nest(places, v) == j
  }

  lemma {:induction false} ChildOfPlace(place: Place, v: Json)
    requires place.Indexable()
    ensures Child(place.Around(v), place.Key()) == Some(v)
  {
    if place.Item? {
      IndexExact(place.Key(), |place.before|);
    }
  }

  lemma {:induction false} PlaceOfChild(j: Json, key: Text) returns (place: Place)
    requires Child(j, key).Some?
    ensures place.Indexable() && place.Key() == key && place.Around(Child(j, key).value) == j
  {
    var v := Child(j, key).value;
    if j.Object? {
      place := Member(key, j.members);
    } else {
      var i := ParseIndex(key).value;
      IndexExact(key, i);
      place := Item(j.items[..i], j.items[i + 1..]);
      assert j.items == j.items[..i] + [v] + j.items[i + 1..];
    }
  }

  lemma {:induction false} NestedIsFound(places: seq<Place>, v: Json)
    requires AllIndexable(places)
    ensures Lookup(Nest(places, v), Keys(places)) == Some(v)
  {
    if places != [] {
      ChildOfPlace(places[0], Nest(places[1..], v));
      NestedIsFound(places[1..], v);
      assert Keys(places)[1..] == Keys(places[1..]);
    }
  }

  lemma {:induction false} FoundIsNested(j: Json, keys: seq<Text>) returns (places: seq<Place>)
    requires Lookup(j, keys).Some?
    ensures AllIndexable(places) && Keys(places) == keys && Nest(places, Lookup(j, keys).value) == j
    decreases |keys|
  {
    places := [];
    if keys != [] {
      var place := PlaceOfChild(j, keys[0]);
      var inner := FoundIsNested(Child(j, keys[0]).value, keys[1..]);
      places := [place] + inner;
      assert places[1..] == inner;
      assert keys == [keys[0]] + keys[1..];
    }
  }

  /** Descending finds a value exactly where the document holds it. */
  lemma {:induction false} LookupExact(j: Json, keys: seq<Text>, v: Json)
    ensures Lookup(j, keys) == Some(v) <==> Leads(j, keys, v)
  {
    if Lookup(j, keys) == Some(v) {
      var places := FoundIsNested(j, keys);
    }
    if Leads(j, keys, v) {
      var places :| AllIndexable(places) && Keys(places) == keys && Nest(places, v) == j;
      NestedIsFound(places, v);
    }
  }

  // ---- Pointer text ------------------------------------------------------------------------

  /** `str::split` on one character: always at least one piece. */
  function Split(t: Text, sep: Scalar): (parts: seq<Text>)
    ensures |parts| >= 1
  {
    if t == [] then [[]]
    else
      var rest := Split(t[1..], sep);
      if t[0] == sep then [[]] + rest else [[t[0]] + rest[0]] + rest[1..]
  }

  /** `str::replace` of the two characters `a b` by `c`, left to right. */
  function ReplacePair(t: Text, a: Scalar, b: Scalar, c: Scalar): Text {
    if |t| < 2 then t
    else if t[0] == a && t[1] == b then [c] + ReplacePair(t[2..], a, b, c)
    else [t[0]] + ReplacePair(t[1..], a, b, c)
  }

  function Unescape(token: Text): Text {
    ReplacePair(ReplacePair(token, TILDE, ONE, SLASH), TILDE, ZERO, TILDE)
  }

  function UnescapeAll(tokens: seq<Text>): seq<Text> {
    if tokens == [] then [] else [Unescape(tokens[0])] + UnescapeAll(tokens[1..])
  }

  /** `Value::pointer` */
  function Pointer(j: Json, p: Text): Option<Json> {
    if p == [] then Some(j)
    else if p[0] != SLASH then None
    else Lookup(j, UnescapeAll(Split(p, SLASH)[1..]))
  }

  // ---- Writing pointers --------------------------------------------------------------------

  function Join(parts: seq<Text>, sep: Scalar): Text
    requires parts != []
  {
    if |parts| == 1 then parts[0] else parts[0] + [sep] + Join(parts[1..], sep)
  }

  function Escape(key: Text): Text {
    if key == [] then []
    else (if key[0] == TILDE then [TILDE, ZERO] else if key[0] == SLASH then [TILDE, ONE] else [key[0]]) + Escape(key[1..])
  }

  function EscapeAll(keys: seq<Text>): seq<Text> {
    if keys == [] then [] else [Escape(keys[0])] + EscapeAll(keys[1..])
  }

  /** The pointer that names a path of keys. */
  function PointerText(keys: seq<Text>): Text {
    Join([[]] + EscapeAll(keys), SLASH)
  }

  predicate Without(parts: seq<Text>, sep: Scalar) {
    forall part :: part in parts ==> sep !in part
  }

  lemma {:induction false} SplitNone(t: Text, sep: Scalar)
    requires sep !in t
    ensures Split(t, sep) == [t]
  {
    if t != [] {
      SplitNone(t[1..], sep);
      assert t == [t[0]] + t[1..];
    }
  }

  lemma {:induction false} SplitCons(part: Text, more: Text, sep: Scalar)
    requires sep !in part
    ensures Split(part + [sep] + more, sep) == [part] + Split(more, sep)
  {
    var t := part + [sep] + more;
    if part == [] {
      assert t[1..] == more;
    } else {
      SplitCons(part[1..], more, sep);
      assert t[1..] == part[1..] + [sep] + more;
      assert part == [part[0]] + part[1..];
      assert ([part[1..]] + Split(more, sep))[1..] == Split(more, sep);
    }
  }

  /** Splitting undoes joining. */
  lemma {:induction false} SplitJoin(parts: seq<Text>, sep: Scalar)
    requires parts != [] && Without(parts, sep)
    ensures Split(Join(parts, sep), sep) == parts
  {
    if |parts| == 1 {
      SplitNone(parts[0], sep);
      assert parts == [parts[0]];
    } else {
      SplitJoin(parts[1..], sep);
      SplitCons(parts[0], Join(parts[1..], sep), sep);
      assert parts == [parts[0]] + parts[1..];
    }
  }

  /** Tildes escaped, slashes not: what is left after the first pass of unescaping. */
  function HalfEscaped(key: Text): Text {
    if key == [] then [] else (if key[0] == TILDE then [TILDE, ZERO] else [key[0]]) + HalfEscaped(key[1..])
  }

  lemma {:induction false} ReplaceSkip(x: Scalar, t: Text, a: Scalar, b: Scalar, c: Scalar)
    requires x != a || t == [] || t[0] != b
    ensures ReplacePair([x] + t, a, b, c) == [x] + ReplacePair(t, a, b, c)
  {
    if t != [] {
      assert ([x] + t)[1..] == t;
    }
  }

  lemma {:induction false} ReplaceHit(t: Text, a: Scalar, b: Scalar, c: Scalar)
    ensures ReplacePair([a, b] + t, a, b, c) == [c] + ReplacePair(t, a, b, c)
  {
    assert ([a, b] + t)[2..] == t;
  }

  lemma {:induction false} Two(a: Scalar, b: Scalar, t: Text)
    ensures [a, b] + t == [a] + ([b] + t)
  {
  }

  lemma {:induction false} ReplaceTilde(e: Text)
    ensures ReplacePair([TILDE, ZERO] + e, TILDE, ONE, SLASH) == [TILDE, ZERO] + ReplacePair(e, TILDE, ONE, SLASH)
  {
    Two(TILDE, ZERO, e);
    ReplaceSkip(TILDE, [ZERO] + e, TILDE, ONE, SLASH);
    ReplaceSkip(ZERO, e, TILDE, ONE, SLASH);
    Two(TILDE, ZERO, ReplacePair(e, TILDE, ONE, SLASH));
  }

  lemma {:induction false} FirstPass(key: Text)
    ensures ReplacePair(Escape(key), TILDE, ONE, SLASH) == HalfEscaped(key)
  {
    if key != [] {
      var e := Escape(key[1..]);
      FirstPass(key[1..]);
      if key[0] == TILDE {
        ReplaceTilde(e);
      } else if key[0] == SLASH {
        ReplaceHit(e, TILDE, ONE, SLASH);
      } else {
        ReplaceSkip(key[0], e, TILDE, ONE, SLASH);
      }
    }
  }

  lemma {:induction false} SecondPass(key: Text)
    ensures ReplacePair(HalfEscaped(key), TILDE, ZERO, TILDE) == key
  {
    if key != [] {
      SecondPass(key[1..]);
      if key[0] == TILDE {
        ReplaceHit(HalfEscaped(key[1..]), TILDE, ZERO, TILDE);
      } else {
        ReplaceSkip(key[0], HalfEscaped(key[1..]), TILDE, ZERO, TILDE);
      }
      assert key == [key[0]] + key[1..];
    }
  }

  lemma UnescapeEscape(key: Text)
    ensures Unescape(Escape(key)) == key
  {
    FirstPass(key);
    SecondPass(key);
  }

  lemma {:induction false} EscapeHidesSlash(key: Text)
    ensures SLASH !in Escape(key)
  {
    if key != [] {
      EscapeHidesSlash(key[1..]);
    }
  }

  lemma {:induction false} EscapeAllTokens(keys: seq<Text>)
    ensures Without(EscapeAll(keys), SLASH) && UnescapeAll(EscapeAll(keys)) == keys
  {
    if keys != [] {
      EscapeAllTokens(keys[1..]);
      EscapeHidesSlash(keys[0]);
      UnescapeEscape(keys[0]);
      assert EscapeAll(keys)[1..] == EscapeAll(keys[1..]);
      assert keys == [keys[0]] + keys[1..];
    }
  }

  lemma {:induction false} PointerOfTokens(j: Json, tokens: seq<Text>)
    requires Without(tokens, SLASH)
    ensures Pointer(j, Join([[]] + tokens, SLASH)) == Lookup(j, UnescapeAll(tokens))
  {
    var parts := [[]] + tokens;
    assert Without(parts, SLASH);
    SplitJoin(parts, SLASH);
    assert parts[1..] == tokens;
    if tokens != [] {
      assert Join(parts, SLASH) == [SLASH] + Join(tokens, SLASH);
    }
  }

  /** The pointer written for some keys, whatever characters they hold, finds exactly what those keys lead to. */
  lemma PointerMeaning(j: Json, keys: seq<Text>, v: Json)
    ensures Pointer(j, PointerText(keys)) == Some(v) <==> Leads(j, keys, v)
  {
    EscapeAllTokens(keys);
    PointerOfTokens(j, EscapeAll(keys));
    LookupExact(j, keys, v);
  }

  // ---- Any pointer -------------------------------------------------------------------------

  /** A reference token read from left to right: `~0` is a tilde, `~1` a slash, all else itself. */
  function ReadToken(t: Text): Text {
    if |t| < 2 then t
    else if t[0] == TILDE && t[1] == ZERO then [TILDE] + ReadToken(t[2..])
    else if t[0] == TILDE && t[1] == ONE then [SLASH] + ReadToken(t[2..])
    else [t[0]] + ReadToken(t[1..])
  }

  function ReadTokens(tokens: seq<Text>): seq<Text> {
    if tokens == [] then [] else [ReadToken(tokens[0])] + ReadTokens(tokens[1..])
  }

  lemma {:induction false} ReplaceStart(t: Text, a: Scalar, b: Scalar, c: Scalar)
    requires t != []
    ensures var r := ReplacePair(t, a, b, c); r != [] && (r[0] == t[0] || r[0] == c)
  {
  }

  lemma {:induction false} Split1(t: Text)
    requires |t| >= 1
    ensures t == [t[0]] + t[1..]
  {
  }

  lemma {:induction false} Split2(t: Text)
    requires |t| >= 2
    ensures t == [t[0], t[1]] + t[2..]
  {
  }

  /** Two passes of replacement read a token as one pass from the left does: neither sees the other's work. */
  lemma {:induction false} UnescapeIsRead(t: Text)
    ensures Unescape(t) == ReadToken(t)
  {
    if |t| >= 2 {
      if t[0] == TILDE && t[1] == ZERO {
        UnescapeIsRead(t[2..]);
        Split2(t);
        ReplaceTilde(t[2..]);
        ReplaceHit(ReplacePair(t[2..], TILDE, ONE, SLASH), TILDE, ZERO, TILDE);
      } else if t[0] == TILDE && t[1] == ONE {
        UnescapeIsRead(t[2..]);
        ReplaceSkip(SLASH, ReplacePair(t[2..], TILDE, ONE, SLASH), TILDE, ZERO, TILDE);
      } else {
        UnescapeIsRead(t[1..]);
        ReplaceStart(t[1..], TILDE, ONE, SLASH);
        ReplaceSkip(t[0], ReplacePair(t[1..], TILDE, ONE, SLASH), TILDE, ZERO, TILDE);
      }
    }
  }

  lemma {:induction false} UnescapeAllReads(tokens: seq<Text>)
    ensures UnescapeAll(tokens) == ReadTokens(tokens)
  {
    if tokens != [] {
      UnescapeIsRead(tokens[0]);
      UnescapeAllReads(tokens[1..]);
    }
  }

  lemma {:induction false} JoinSplit(t: Text, sep: Scalar)
    ensures Without(Split(t, sep), sep) && Join(Split(t, sep), sep) == t
  {
    if t != [] {
      JoinSplit(t[1..], sep);
      var rest := Split(t[1..], sep);
      Split1(t);
      JoinFront(if t[0] == sep then [] else [t[0]], t[0] == sep, rest, sep);
      if t[0] != sep {
        assert Split(t, sep) == [[t[0]] + rest[0]] + rest[1..];
        assert forall part :: part in Split(t, sep) ==> part == [t[0]] + rest[0] || part in rest;
      }
    }
  }

  /** Joining with something put in front: as a piece of its own, or at the head of the first piece. */
  lemma {:induction false} JoinFront(front: Text, own: bool, rest: seq<Text>, sep: Scalar)
    requires rest != []
    ensures own ==> Join([front] + rest, sep) == front + [sep] + Join(rest, sep)
    ensures !own ==> Join([front + rest[0]] + rest[1..], sep) == front + Join(rest, sep)
  {
    if own {
      assert ([front] + rest)[1..] == rest;
    } else if |rest| > 1 {
      assert ([front + rest[0]] + rest[1..])[1..] == rest[1..];
    }
  }

  /** `p` is "/" before each of these tokens. */
  predicate Writes(tokens: seq<Text>, p: Text) {
    Without(tokens, SLASH) && p == Join([[]] + tokens, SLASH)
  }

  /** Section 4 of RFC 6901: pointer `p` evaluates to `v` in `j`. */
  ghost predicate At(j: Json, p: Text, v: Json) {
    exists tokens :: Writes(tokens, p) && Leads(j, ReadTokens(tokens), v)
  }

  /** Every pointer other than the empty one and those that start with '/' is malformed; these have one reading. */
  lemma {:induction false} TokensOf(p: Text) returns (tokens: seq<Text>)
    requires p == [] || p[0] == SLASH
    ensures Writes(tokens, p)
  {
    tokens := [];
    if p != [] {
      JoinSplit(p, SLASH);
      tokens := Split(p, SLASH)[1..];
      assert Split(p, SLASH) == [[]] + tokens;
    }
  }

  /** On every document and every text, well-formed or not, the evaluator finds exactly what the standard says. */
  lemma {:induction false} PointerExact(j: Json, p: Text, v: Json)
    ensures Pointer(j, p) == Some(v) <==> At(j, p, v)
  {
    if Pointer(j, p) == Some(v) {
      var tokens := TokensOf(p);
      WritesMeans(j, p, tokens, v);
    }
    if At(j, p, v) {
      var tokens :| Writes(tokens, p) && Leads(j, ReadTokens(tokens), v);
      WritesMeans(j, p, tokens, v);
    }
  }

  lemma {:induction false} WritesMeans(j: Json, p: Text, tokens: seq<Text>, v: Json)
    requires Writes(tokens, p)
    ensures Pointer(j, p) == Some(v) <==> Leads(j, ReadTokens(tokens), v)
  {
    PointerOfTokens(j, tokens);
    UnescapeAllReads(tokens);
    LookupExact(j, ReadTokens(tokens), v);
  }

  // ---- Dotted field names ------------------------------------------------------------------

  function ReplaceChar(t: Text, a: Scalar, b: Scalar): Text {
    seq(|t|, i requires 0 <= i < |t| => if t[i] == a then b else t[i])
  }

  function NormalizeField(field: Text): Text {
    if field != [] && field[0] == SLASH then field else [SLASH] + ReplaceChar(field, DOT, SLASH)
  }

  lemma NormalizeIdempotent(field: Text)
    ensures NormalizeField(NormalizeField(field)) == NormalizeField(field)
    ensures NormalizeField(field) != [] && NormalizeField(field)[0] == SLASH
  {
  }

  /** The results are the fields that start with '/', and each of those is left as it is. */
  lemma NormalizeFixes(field: Text)
    ensures NormalizeField(field) == field <==> field != [] && field[0] == SLASH
    ensures !(field != [] && field[0] == SLASH) ==>
              && |NormalizeField(field)| == |field| + 1
              && forall i :: 0 <= i < |field| ==> NormalizeField(field)[i + 1] == if field[i] == DOT then SLASH else field[i]
  {
  }

  lemma ReplaceCharAppend(t: Text, u: Text, a: Scalar, b: Scalar)
    ensures ReplaceChar(t + u, a, b) == ReplaceChar(t, a, b) + ReplaceChar(u, a, b)
  {
  }

  lemma ReplaceCharNone(t: Text, a: Scalar, b: Scalar)
    requires a !in t
    ensures ReplaceChar(t, a, b) == t
  {
  }

  lemma {:induction false} ReplaceSeparator(parts: seq<Text>, a: Scalar, b: Scalar)
    requires parts != [] && Without(parts, a)
    ensures ReplaceChar(Join(parts, a), a, b) == Join(parts, b)
  {
    ReplaceCharNone(parts[0], a, b);
    if |parts| > 1 {
      var rest := Join(parts[1..], a);
      ReplaceSeparator(parts[1..], a, b);
      ReplaceCharAppend(parts[0] + [a], rest, a, b);
      ReplaceCharAppend(parts[0], [a], a, b);
    }
  }

  lemma {:induction false} JoinStart(parts: seq<Text>, sep: Scalar, x: Scalar)
    requires parts != [] && Without(parts, x) && sep != x
    ensures Join(parts, sep) != [] ==> Join(parts, sep)[0] != x
  {
    assert parts[0] in parts;
  }

  /** A dotted name finds what its parts, each read as a token, lead to. */
  lemma DottedMeaning(j: Json, keys: seq<Text>, v: Json)
    requires keys != [] && Without(keys, DOT) && Without(keys, SLASH)
    ensures Pointer(j, NormalizeField(Join(keys, DOT))) == Some(v) <==> Leads(j, ReadTokens(keys), v)
  {
    JoinStart(keys, DOT, SLASH);
    ReplaceSeparator(keys, DOT, SLASH);
    assert ([[]] + keys)[1..] == keys;
    assert Join([[]] + keys, SLASH) == [SLASH] + Join(keys, SLASH);
    WritesMeans(j, NormalizeField(Join(keys, DOT)), keys, v);
  }

  /** `a b` occurs in `t`. */
  predicate HasPair(t: Text, a: Scalar, b: Scalar) {
    exists i :: 0 <= i < |t| - 1 && t[i] == a && t[i + 1] == b
  }

  lemma {:induction false} ReplacePairShrinks(t: Text, a: Scalar, b: Scalar, c: Scalar)
    ensures |ReplacePair(t, a, b, c)| <= |t|
    ensures HasPair(t, a, b) ==> |ReplacePair(t, a, b, c)| < |t|
    ensures !HasPair(t, a, b) ==> ReplacePair(t, a, b, c) == t
  {
    if |t| >= 2 {
      if t[0] == a && t[1] == b {
        ReplacePairShrinks(t[2..], a, b, c);
      } else {
        ReplacePairShrinks(t[1..], a, b, c);
        assert t == [t[0]] + t[1..];
        if HasPair(t, a, b) {
          var i :| 0 <= i < |t| - 1 && t[i] == a && t[i + 1] == b;
          assert t[1..][i - 1] == a && t[1..][i - 1 + 1] == b;
        }
      }
    }
  }

  /** Unescaping leaves a key alone exactly when it contains neither `~0` nor `~1`. */
  lemma UnescapeFixes(key: Text)
    ensures Unescape(key) == key <==> !HasPair(key, TILDE, ZERO) && !HasPair(key, TILDE, ONE)
  {
    ReplacePairShrinks(key, TILDE, ONE, SLASH);
    ReplacePairShrinks(ReplacePair(key, TILDE, ONE, SLASH), TILDE, ZERO, TILDE);
  }

  lemma {:induction false} UnescapeAllFixes(keys: seq<Text>)
    requires Without(keys, TILDE)
    ensures UnescapeAll(keys) == keys
  {
    if keys != [] {
      assert keys[0] in keys;
      UnescapeFixes(keys[0]);
      UnescapeAllFixes(keys[1..]);
      assert keys == [keys[0]] + keys[1..];
    }
  }

  /** Keys free of '.', '/' and '~': the dotted form finds exactly what the keys themselves lead to. */
  lemma DottedPlainMeaning(j: Json, keys: seq<Text>, v: Json)
    requires keys != [] && Without(keys, DOT) && Without(keys, SLASH) && Without(keys, TILDE)
    ensures Pointer(j, NormalizeField(Join(keys, DOT))) == Some(v) <==> Leads(j, keys, v)
  {
    DottedMeaning(j, keys, v);
    UnescapeAllReads(keys);
    UnescapeAllFixes(keys);
  }
}
