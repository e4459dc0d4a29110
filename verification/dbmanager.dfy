/** The pure part of `DatabaseManager`: the checks `validate_product_data`
    makes on a product dictionary, and the SQL text and parameter lists
    that `add_product`, `update_product` and `search_products` hand to the
    cursor.  Running the statements, the connection and commit/rollback
    are outside the model. */
module ProductStore {
  import opened Wrappers
  import opened PyText
  import opened SqlText

  /** A dictionary value, as far as the checks tell values apart. */
  datatype Value =
    | Null
    | Bool(b: bool)
    | Int(i: int)
    | Float(f: real)
    | Str(s: string)
    | List(items: seq<Value>)

  /** Python truthiness. */
  predicate Truthy(v: Value) {
    match v
    case Null => false
    case Bool(b) => b
    case Int(i) => i != 0
    case Float(f) => f != 0.0
    case Str(s) => s != ""
    case List(xs) => xs != []
  }

  /** One key of a product dictionary with its value.  A dictionary is its
      entries in insertion order, each key once. */
  datatype Entry = Entry(key: string, value: Value)

  function Keys(data: seq<Entry>): (ks: seq<string>)
    ensures |ks| == |data| && forall k :: 0 <= k < |data| ==> ks[k] == data[k].key
  {
    seq(|data|, k requires 0 <= k < |data| => data[k].key)
  }

  function Values(data: seq<Entry>): (vs: seq<Value>)
    ensures |vs| == |data| && forall k :: 0 <= k < |data| ==> vs[k] == data[k].value
  {
    seq(|data|, k requires 0 <= k < |data| => data[k].value)
  }

  /** `data[key]` when `key in data`. */
  function Lookup(data: seq<Entry>, key: string): (r: Option<Value>)
    ensures r.None? <==> forall k :: 0 <= k < |data| ==> data[k].key != key
    ensures r.Some? ==> Entry(key, r.value) in data
  {
    if |data| == 0 then None
    else if data[0].key == key then Some(data[0].value)
    else
      assert forall k :: 1 <= k < |data| ==> data[k] == data[1..][k - 1];
      Lookup(data[1..], key)
  }

  // ---------------------------------------------------------------------
  // validate_product_data

  /** The exceptions the validation raises. */
  datatype Raised = ValueError(message: string) | AttributeError

  const NameRequired := "Название продукта обязательно"
  const PriceInvalid := "Цена должна быть положительным числом"
  const UrlInvalid := "Некорректный URL"

  /** The name rule: a string with some non-whitespace character. */
  predicate NameGiven(data: seq<Entry>) {
    var v := Lookup(data, "name");
    v.Some? && v.value.Str? && !AllSpace(v.value.s)
  }

  /** A name that is there but is not a string: `.strip()` fails on it. */
  predicate NameNotText(data: seq<Entry>) {
    var v := Lookup(data, "name");
    v.Some? && !v.value.Str?
  }

  /** The price rule: absent, None, or a number that is not negative.  A
      `bool` is an `int` to `isinstance`. */
  predicate PriceAcceptable(data: seq<Entry>) {
    match Lookup(data, "price")
    case None => true
    case Some(v) => v.Null? || v.Bool? || (v.Int? && v.i >= 0) || (v.Float? && v.f >= 0.0)
  }

  /** The URL rule: absent, falsy, or a string with both a scheme and a
      network location. */
  predicate UrlAcceptable(data: seq<Entry>) {
    match Lookup(data, "url")
    case None => true
    case Some(v) => !Truthy(v) || (v.Str? && HasSchemeAndNetloc(v.s))
  }

  /** `validate_product_data(data)`: the exception it raises, or None.  The
      rules are checked in the order name, price, URL, and the first one
      broken decides the exception. */
  function Validate(data: seq<Entry>): (r: Option<Raised>)
    ensures r.None? <==> NameGiven(data) && PriceAcceptable(data) && UrlAcceptable(data)
    ensures r == Some(AttributeError) <==> NameNotText(data)
    ensures r == Some(ValueError(NameRequired)) <==> !NameGiven(data) && !NameNotText(data)
    ensures r == Some(ValueError(PriceInvalid)) <==> NameGiven(data) && !PriceAcceptable(data)
    ensures r == Some(ValueError(UrlInvalid)) <==>
      NameGiven(data) && PriceAcceptable(data) && !UrlAcceptable(data)
  {
    match Lookup(data, "name")
    case None => Some(ValueError(NameRequired))
    case Some(name) =>
      if !name.Str? then Some(AttributeError)
      else
        BlankIffAllSpace(name.s);
        if Strip(name.s) == "" then Some(ValueError(NameRequired))
        else
          var price := Lookup(data, "price");
          if price.Some? && !price.value.Null? && (!IsNumber(price.value) || IsNegative(price.value)) then
            Some(ValueError(PriceInvalid))
          else
            var url := Lookup(data, "url");
            if url.Some? && Truthy(url.value) && !(url.value.Str? && HasSchemeAndNetloc(url.value.s)) then
              Some(ValueError(UrlInvalid))
            else None
  }

  /** `isinstance(v, (int, float))`. */
  predicate IsNumber(v: Value) {
    v.Bool? || v.Int? || v.Float?
  }

  /** `v < 0` for a number. */
  predicate IsNegative(v: Value) {
    (v.Int? && v.i < 0) || (v.Float? && v.f < 0.0)
  }

  /** `s.strip()` is empty exactly when `s` is all whitespace. */
  lemma BlankIffAllSpace(s: string)
    ensures Strip(s) == "" <==> AllSpace(s)
  {
    var r := Strip(s);
    if r != "" {
      assert !IsSpace(r[0]);
      assert r[0] == s[SpanEnd(s, 0, true)];
    }
  }

  // ---------------------------------------------------------------------
  // urlparse, as far as the validation needs it

  /** `_WHATWG_C0_CONTROL_OR_SPACE`: what `urlsplit` strips from the front. */
  predicate ControlOrSpace(c: char) {
    c <= ' '
  }

  /** `_UNSAFE_URL_BYTES_TO_REMOVE`: what `urlsplit` deletes everywhere. */
  predicate Unsafe(c: char) {
    c == '\t' || c == '\r' || c == '\n'
  }

  function LeadingDropped(s: string): (r: string)
    ensures forall k :: 0 <= k < |r| ==> r[k] in s
    ensures |s| > 0 && !ControlOrSpace(s[0]) ==> r == s
    decreases |s|
  {
    if |s| > 0 && ControlOrSpace(s[0]) then LeadingDropped(s[1..]) else s
  }

  function UnsafeRemoved(s: string): (r: string)
    ensures forall k :: 0 <= k < |r| ==> r[k] in s && !Unsafe(r[k])
  {
    if |s| == 0 then ""
    else (if Unsafe(s[0]) then "" else [s[0]]) + UnsafeRemoved(s[1..])
  }

  /** The text `urlsplit` splits. */
  function UrlCleaned(url: string): (r: string)
    ensures forall k :: 0 <= k < |r| ==> r[k] in url
  {
    UnsafeRemoved(LeadingDropped(url))
  }

  /** The characters `scheme_chars` allows. */
  predicate SchemeChar(c: char) {
    ('a' <= c <= 'z') || ('A' <= c <= 'Z') || ('0' <= c <= '9') || c == '+' || c == '-' || c == '.'
  }

  predicate IsScheme(s: string) {
    |s| > 0 && ('a' <= s[0] <= 'z' || 'A' <= s[0] <= 'Z') && forall k :: 0 <= k < |s| ==> SchemeChar(s[k])
  }

  /** The scheme, lower-cased, and the rest: the text before the first ':'
      when it starts with an ASCII letter and holds only scheme characters;
      otherwise no scheme. */
  function SplitScheme(u: string): (string, string)
  {
    match Find(u, ":")
    case Some(i) =>
      if i > 0 && IsScheme(u[..i]) then (LowerAscii(u[..i]), u[i + 1..]) else ("", u)
    case None => ("", u)
  }

  /** The characters that end a network location. */
  predicate Delimiter(c: char) {
    c == '/' || c == '?' || c == '#'
  }

  /** A character of a plain host name: no delimiter, bracket or control
      character. */
  predicate HostChar(c: char) {
    !Delimiter(c) && c != '[' && c != ']' && !Unsafe(c)
  }

  /** The first index at or after `i` holding '/', '?' or '#', or the end. */
  function NetlocEnd(u: string, i: nat): (e: nat)
    requires i <= |u|
    ensures i <= e <= |u|
    ensures forall k :: i <= k < e ==> !Delimiter(u[k])
    ensures e < |u| ==> Delimiter(u[e])
    decreases |u| - i
  {
    if i == |u| || Delimiter(u[i]) then i else NetlocEnd(u, i + 1)
  }

  /** The network location after a leading "//", or none. */
  function Netloc(rest: string): string {
    if |rest| >= 2 && rest[..2] == "//" then rest[2..NetlocEnd(rest, 2)] else ""
  }

  /** `urlsplit(url)`'s scheme and network location, or the `ValueError`
      it raises when the network location has one bracket of a pair. */
  function UrlSplit(url: string): Result<(string, string), string>
  {
    var (scheme, rest) := SplitScheme(UrlCleaned(url));
    var netloc := Netloc(rest);
    if ('[' in netloc && ']' !in netloc) || (']' in netloc && '[' !in netloc) then Err("Invalid IPv6 URL")
    else Ok((scheme, netloc))
  }

  /** `all([result.scheme, result.netloc])` for a `urlparse` that succeeds. */
  predicate HasSchemeAndNetloc(url: string) {
    var r := UrlSplit(url);
    r.Ok? && r.value.0 != "" && r.value.1 != ""
  }

  /** A text without a ':' has no scheme, so it is never accepted. */
  lemma NoColonRejected(url: string)
    requires ':' !in url
    ensures !HasSchemeAndNetloc(url)
  {
    var u := UrlCleaned(url);
    forall j | 0 <= j
      ensures !OccursAt(u, ":", j)
    {
      if j < |u| {
        assert u[j] in url;
        assert u[j..j + 1] == [u[j]];
      }
    }
  }

  lemma {:induction false} UnsafeRemovedAppend(a: string, b: string)
    ensures UnsafeRemoved(a + b) == UnsafeRemoved(a) + UnsafeRemoved(b)
    decreases |a|
  {
    if |a| > 0 {
      UnsafeRemovedAppend(a[1..], b);
      assert (a + b)[0] == a[0];
      assert (a + b)[1..] == a[1..] + b;
      var h := if Unsafe(a[0]) then "" else [a[0]];
      assert UnsafeRemoved(a + b) == h + (UnsafeRemoved(a[1..]) + UnsafeRemoved(b));
      assert UnsafeRemoved(a) == h + UnsafeRemoved(a[1..]);
    } else {
      assert a + b == b;
    }
  }

  lemma {:induction false} UnsafeRemovedSafe(s: string)
    requires forall k :: 0 <= k < |s| ==> !Unsafe(s[k])
    ensures UnsafeRemoved(s) == s
    decreases |s|
  {
    if |s| > 0 {
      UnsafeRemovedSafe(s[1..]);
      assert s == [s[0]] + s[1..];
    }
  }

  /** The network location of `"//" + host + path` is `host` when the host
      has none of '/', '?', '#' and the path starts with one or is empty. */
  lemma NetlocOfHost(host: string, path: string)
    requires forall k :: 0 <= k < |host| ==> !Delimiter(host[k])
    requires path == "" || Delimiter(path[0])
    ensures Netloc("//" + host + path) == host
  {
    var u := "//" + host + path;
    assert u[..2] == "//";
    forall k | 2 <= k < 2 + |host|
      ensures !Delimiter(u[k])
    {
      assert u[k] == host[k - 2];
    }
    assert 2 + |host| < |u| ==> u[2 + |host|] == path[0];
    NetlocEndIs(u, 2, 2 + |host|);
    assert u[2..2 + |host|] == host;
  }

  lemma {:induction false} NetlocEndIs(u: string, i: nat, e: nat)
    requires i <= e <= |u|
    requires forall k :: i <= k < e ==> !Delimiter(u[k])
    requires e < |u| ==> Delimiter(u[e])
    ensures NetlocEnd(u, i) == e
    decreases e - i
  {
    if i < e {
      NetlocEndIs(u, i + 1, e);
    }
  }

  /** Cleaning `scheme://host` + path removes nothing before the path. */
  lemma CleanedSchemeHost(scheme: string, host: string, path: string)
    requires IsScheme(scheme)
    requires forall k :: 0 <= k < |host| ==> !Unsafe(host[k])
    ensures UrlCleaned(scheme + "://" + host + path) == scheme + "://" + host + UnsafeRemoved(path)
  {
    var front := scheme + "://" + host;
    var url := front + path;
    assert LeadingDropped(url) == url by {
      assert url[0] == scheme[0];
    }
    UnsafeRemovedAppend(front, path);
    FrontKept(scheme, host);
  }

  /** Cleaning keeps `scheme://host` whole. */
  lemma FrontKept(scheme: string, host: string)
    requires IsScheme(scheme)
    requires forall k :: 0 <= k < |host| ==> !Unsafe(host[k])
    ensures UnsafeRemoved(scheme + "://" + host) == scheme + "://" + host
  {
    var sep := "://";
    assert !Unsafe(sep[0]) && !Unsafe(sep[1]) && !Unsafe(sep[2]);
    KeptThree(scheme, sep, host);
  }

  /** Cleaning keeps three texts free of control characters whole. */
  lemma KeptThree(a: string, b: string, c: string)
    requires forall k :: 0 <= k < |a| ==> !Unsafe(a[k])
    requires forall k :: 0 <= k < |b| ==> !Unsafe(b[k])
    requires forall k :: 0 <= k < |c| ==> !Unsafe(c[k])
    ensures UnsafeRemoved(a + b + c) == a + b + c
  {
    UnsafeRemovedAppend(a + b, c);
    UnsafeRemovedAppend(a, b);
    UnsafeRemovedSafe(a);
    UnsafeRemovedSafe(b);
    UnsafeRemovedSafe(c);
  }

  /** A well-formed scheme before the first ':' is split off, lower-cased. */
  lemma SplitSchemeOf(scheme: string, rest: string)
    requires IsScheme(scheme)
    ensures SplitScheme(scheme + "://" + rest) == (LowerAscii(scheme), "//" + rest)
  {
    var u := scheme + "://" + rest;
    assert u == scheme + ":" + ("//" + rest);
    assert ':' !in scheme;
    EndsBeforeByHead(scheme, ":");
    FindAfter(scheme, ":", "//" + rest);
    assert u[..|scheme|] == scheme;
    assert u[|scheme| + 1..] == "//" + rest;
  }

  /** Regrouping a concatenation, proved apart from the URL facts so that
      the sequence reasoning stays out of `SchemeHostSplit`'s proof. */
  lemma Associative(a: string, b: string, c: string)
    ensures a + b + c == a + (b + c)
  {
  }

  /** `scheme://host` + path splits into the lower-cased scheme and the
      rest after the ':', cleaned. */
  lemma SchemeHostSplit(scheme: string, host: string, path: string)
    requires IsScheme(scheme)
    requires forall k :: 0 <= k < |host| ==> !Unsafe(host[k])
    ensures SplitScheme(UrlCleaned(scheme + "://" + host + path)) == (LowerAscii(scheme), "//" + host + UnsafeRemoved(path))
  {
    var tail := UnsafeRemoved(path);
    CleanedSchemeHost(scheme, host, path);
    Associative(scheme + "://", host, tail);
    SplitSchemeOf(scheme, host + tail);
    Associative("//", host, tail);
  }

  /** Removing control characters keeps a path's first separator first. */
  lemma UnsafeRemovedPath(path: string)
    requires path == "" || Delimiter(path[0])
    ensures UnsafeRemoved(path) == "" || Delimiter(UnsafeRemoved(path)[0])
  {
    if path != "" {
      assert path == [path[0]] + path[1..];
      UnsafeRemovedAppend([path[0]], path[1..]);
    }
  }

  /** A URL written `scheme://host/path` is accepted whenever the scheme is
      well formed and the host is non-empty without '/', '?', '#',
      brackets or control characters. */
  lemma SchemeHostAccepted(scheme: string, host: string, path: string)
    requires IsScheme(scheme)
    requires host != "" && forall k :: 0 <= k < |host| ==> HostChar(host[k])
    requires path == "" || Delimiter(path[0])
    ensures HasSchemeAndNetloc(scheme + "://" + host + path)
  {
    var url := scheme + "://" + host + path;
    var tail := UnsafeRemoved(path);
    SchemeHostSplit(scheme, host, path);
    assert Netloc("//" + host + tail) == host by {
      UnsafeRemovedPath(path);
      assert forall k :: 0 <= k < |host| ==> !Delimiter(host[k]);
      NetlocOfHost(host, tail);
    }
    assert '[' !in host && ']' !in host by {
      forall k | 0 <= k < |host|
        ensures host[k] != '[' && host[k] != ']'
      {
        assert HostChar(host[k]);
      }
    }
    assert LowerAscii(scheme) != "" by {
      assert scheme[0] in scheme;
    }
    SplitAccepted(url, LowerAscii(scheme), "//" + host + tail);
  }

  /** `urlsplit` accepts a text whose scheme is non-empty and whose network
      location is non-empty and bracket-free. */
  lemma SplitAccepted(url: string, scheme: string, rest: string)
    requires SplitScheme(UrlCleaned(url)) == (scheme, rest)
    requires scheme != "" && Netloc(rest) != ""
    requires '[' !in Netloc(rest) && ']' !in Netloc(rest)
    ensures HasSchemeAndNetloc(url)
  {
  }

  // The three cases the validation test exercises, and the values the
  // rules let through.

  const TestName := "Тест"

  lemma TestNameGiven()
    ensures !AllSpace(TestName)
  {
    assert !IsSpace(TestName[0]);
  }

  lemma MissingNameRejected()
    ensures Validate([Entry("price", Int(100))]) == Some(ValueError(NameRequired))
  {
  }

  lemma NegativePriceRejected()
    ensures Validate([Entry("name", Str(TestName)), Entry("price", Int(-100))]) == Some(ValueError(PriceInvalid))
  {
    var data := [Entry("name", Str(TestName)), Entry("price", Int(-100))];
    TestNameGiven();
    assert Lookup(data, "name") == Some(Str(TestName));
    assert Lookup(data, "price") == Some(Int(-100));
    assert NameGiven(data) && !PriceAcceptable(data);
  }

  /** With a good name and no price, a non-empty URL without ':' is
      rejected. */
  lemma ColonlessUrlRejected(url: string)
    requires url != "" && ':' !in url
    ensures Validate([Entry("name", Str(TestName)), Entry("url", Str(url))]) == Some(ValueError(UrlInvalid))
  {
    NamedWithUrl(url);
    NamedWithBadUrl(url);
  }

  /** The test name passes the name rule and no price passes the price
      rule. */
  lemma NamedWithUrl(url: string)
    ensures NameGiven([Entry("name", Str(TestName)), Entry("url", Str(url))])
    ensures PriceAcceptable([Entry("name", Str(TestName)), Entry("url", Str(url))])
  {
    var data := [Entry("name", Str(TestName)), Entry("url", Str(url))];
    TestNameGiven();
    assert Lookup(data, "name") == Some(Str(TestName));
    assert Lookup(data, "price") == None;
  }

  lemma NamedWithBadUrl(url: string)
    requires url != "" && ':' !in url
    ensures !UrlAcceptable([Entry("name", Str(TestName)), Entry("url", Str(url))])
  {
    var data := [Entry("name", Str(TestName)), Entry("url", Str(url))];
    NoColonRejected(url);
    assert Lookup(data, "url") == Some(Str(url));
  }

  const BadUrl := "некорректный-url"

  lemma MalformedUrlRejected()
    ensures Validate([Entry("name", Str(TestName)), Entry("url", Str(BadUrl))]) == Some(ValueError(UrlInvalid))
  {
    assert ':' !in BadUrl;
    ColonlessUrlRejected(BadUrl);
  }

  lemma ZeroPriceEmptyUrlAccepted()
    ensures Validate([Entry("name", Str(TestName)), Entry("price", Int(0)), Entry("url", Str(""))]) == None
  {
    TestNameGiven();
  }

  lemma NullPriceAccepted()
    ensures Validate([Entry("name", Str(TestName)), Entry("price", Null)]) == None
  {
    TestNameGiven();
  }

  lemma BlankNameRejectedFirst()
    ensures Validate([Entry("name", Str("   ")), Entry("price", Int(-1))]) == Some(ValueError(NameRequired))
  {
    assert AllSpace("   ");
  }

  // ---------------------------------------------------------------------
  // Statements

  /** What `cursor.execute` receives: the SQL text and its parameters. */
  datatype Statement = Statement(sql: string, params: seq<Value>)

  /** psycopg2 can bind the parameters: one `%s` marker per parameter and no
      other `%` in the text. */
  predicate Binds(st: Statement) {
    PercentCount(st.sql) == |st.params| && MarkersOnly(st.sql)
  }

  /** No key holds a `%`: the column names add no marker of their own. */
  predicate PlainKeys(data: seq<Entry>) {
    forall k :: 0 <= k < |data| ==> '%' !in data[k].key
  }

  /** `['%s'] * n`. */
  function Markers(n: nat): (r: seq<string>)
    ensures |r| == n && forall k :: 0 <= k < n ==> r[k] == "%s"
  {
    seq(n, k => "%s")
  }

  /** The fixed pieces of the three statements hold no `%`: one lemma per
      piece keeps each proof small. */
  lemma InsertTextsPlain()
    ensures '%' !in InsertHead && '%' !in ValuesSep && '%' !in InsertTail
  {
  }

  lemma UpdateTextsPlain()
    ensures '%' !in UpdateHead && '%' !in " = " && '%' !in " WHERE id = " && '%' !in " RETURNING id"
  {
  }

  lemma SearchHeadPlain()
    ensures '%' !in SearchHead
  {
    assert '%' !in Indent;
    assert '%' !in "SELECT * FROM products ";
  }

  lemma OrderByPlain()
    ensures '%' !in OrderBy
  {
    assert '%' !in Indent;
    assert '%' !in "ORDER BY created_at DESC";
  }

  // add_product

  const InsertHead := "INSERT INTO products ("
  const ValuesSep := ") VALUES ("
  const InsertTail := ") RETURNING id"

  function InsertSql(keys: seq<string>): string {
    InsertHead + Join(", ", keys) + ValuesSep + Join(", ", Markers(|keys|)) + InsertTail
  }

  /** `add_product(data)` up to the cursor: the validation runs first, and
      only valid data gives a statement, with the values in key order. */
  function AddProduct(data: seq<Entry>): (r: Result<Statement, Raised>)
    ensures r.Err? <==> Validate(data).Some?
    ensures r.Err? ==> Validate(data) == Some(r.error)
    ensures r.Ok? ==> |r.value.params| == |data| && forall k :: 0 <= k < |data| ==> r.value.params[k] == data[k].value
    ensures r.Ok? && PlainKeys(data) ==> Binds(r.value)
  {
    match Validate(data)
    case Some(e) => Err(e)
    case None =>
      if PlainKeys(data) then InsertBinds(Keys(data)); Ok(Statement(InsertSql(Keys(data)), Values(data)))
      else Ok(Statement(InsertSql(Keys(data)), Values(data)))
  }

  lemma InsertBinds(keys: seq<string>)
    requires forall k :: 0 <= k < |keys| ==> '%' !in keys[k]
    ensures PercentCount(InsertSql(keys)) == |keys| && MarkersOnly(InsertSql(keys))
  {
    InsertTextsPlain();
    ColumnsPlain(keys);
    ValueMarkers(|keys|);
    Framed2(InsertHead, Join(", ", keys), ValuesSep, Join(", ", Markers(|keys|)), InsertTail);
  }

  lemma ColumnsPlain(keys: seq<string>)
    requires forall k :: 0 <= k < |keys| ==> '%' !in keys[k]
    ensures PercentCount(Join(", ", keys)) == 0 && MarkersOnly(Join(", ", keys))
  {
    forall k | 0 <= k < |keys|
      ensures PercentCount(keys[k]) == 0 && MarkersOnly(keys[k])
    {
      NoPercent(keys[k]);
    }
    JoinMarkers(", ", keys, 0);
  }

  lemma ValueMarkers(n: nat)
    ensures PercentCount(Join(", ", Markers(n))) == n && MarkersOnly(Join(", ", Markers(n)))
  {
    MarkerAlone();
    JoinMarkers(", ", Markers(n), 1);
  }

  /** Reads the column list and the value list back from an INSERT text. */
  function ParseInsert(sql: string): Option<(seq<string>, seq<string>)> {
    match Between(sql, InsertHead, InsertTail)
    case None => None
    case Some(body) =>
      match Find(body, ValuesSep)
      case None => None
      case Some(j) =>
        Some((SplitOn(body[..j], ", "), SplitOn(body[j + |ValuesSep|..], ", ")))
  }

  /** The INSERT text names the keys in order and pairs them with as many
      markers, for keys without ',' or ')'. */
  lemma InsertRoundTrip(keys: seq<string>)
    requires keys != []
    requires forall k :: 0 <= k < |keys| ==> ',' !in keys[k] && ')' !in keys[k]
    ensures ParseInsert(InsertSql(keys)) == Some((keys, Markers(|keys|)))
  {
    var cols := Join(", ", keys);
    var vals := Join(", ", Markers(|keys|));
    assert InsertSql(keys) == InsertHead + (cols + ValuesSep + vals) + InsertTail;
    BetweenOf(InsertHead, cols + ValuesSep + vals, InsertTail);
    JoinAvoids(", ", keys, ')');
    EndsBeforeByHead(cols, ValuesSep);
    FindAfter(cols, ValuesSep, vals);
    var body := cols + ValuesSep + vals;
    assert body[..|cols|] == cols;
    assert body[|cols| + |ValuesSep|..] == vals;
    forall k | 0 <= k < |keys|
      ensures EndsBefore(keys[k], ", ")
    {
      EndsBeforeByHead(keys[k], ", ");
    }
    SplitOnJoin(keys, ", ");
    forall k | 0 <= k < |keys|
      ensures EndsBefore(Markers(|keys|)[k], ", ")
    {
      EndsBeforeByHead("%s", ", ");
    }
    SplitOnJoin(Markers(|keys|), ", ");
  }

  // update_product

  const UpdateHead := "UPDATE products SET "
  const AssignTail := " = " + "%s"
  const UpdateTail := " WHERE id = " + "%s" + " RETURNING id"

  /** `[f"{k} = %s" for k in keys]`. */
  function Assignments(keys: seq<string>): (r: seq<string>)
    ensures |r| == |keys| && forall k :: 0 <= k < |keys| ==> r[k] == keys[k] + AssignTail
  {
    seq(|keys|, k requires 0 <= k < |keys| => keys[k] + AssignTail)
  }

  function UpdateSql(keys: seq<string>): string {
    UpdateHead + Join(", ", Assignments(keys)) + UpdateTail
  }

  /** `update_product(id, data)` up to the cursor: validation first, then
      one assignment per key and the id as the last parameter. */
  function UpdateProduct(id: int, data: seq<Entry>): (r: Result<Statement, Raised>)
    ensures r.Err? <==> Validate(data).Some?
    ensures r.Err? ==> Validate(data) == Some(r.error)
    ensures r.Ok? ==> |r.value.params| == |data| + 1 && r.value.params[|data|] == Int(id)
    ensures r.Ok? ==> forall k :: 0 <= k < |data| ==> r.value.params[k] == data[k].value
    ensures r.Ok? && PlainKeys(data) ==> Binds(r.value)
  {
    match Validate(data)
    case Some(e) => Err(e)
    case None =>
      var st := Statement(UpdateSql(Keys(data)), Values(data) + [Int(id)]);
      if PlainKeys(data) then UpdateBinds(Keys(data)); Ok(st) else Ok(st)
  }

  lemma AssignMarkers()
    ensures PercentCount(AssignTail) == 1 && MarkersOnly(AssignTail)
    ensures PercentCount(UpdateTail) == 1 && MarkersOnly(UpdateTail)
  {
    UpdateTextsPlain();
    Marked(" = ");
    Marked(" WHERE id = ");
    Suffixed(" WHERE id = " + "%s", " RETURNING id");
  }

  lemma UpdateBinds(keys: seq<string>)
    requires forall k :: 0 <= k < |keys| ==> '%' !in keys[k]
    ensures PercentCount(UpdateSql(keys)) == |keys| + 1 && MarkersOnly(UpdateSql(keys))
  {
    UpdateTextsPlain();
    var sets := Join(", ", Assignments(keys));
    AssignMarkers();
    forall k | 0 <= k < |keys|
      ensures PercentCount(Assignments(keys)[k]) == 1 && MarkersOnly(Assignments(keys)[k])
    {
      NoPercent(keys[k]);
      PercentCountAppend(keys[k], AssignTail);
      MarkersOnlyAppend(keys[k], AssignTail);
    }
    JoinMarkers(", ", Assignments(keys), 1);
    Prefixed(UpdateHead, sets);
    Concat(UpdateHead + sets, UpdateTail);
  }

  /** The keys of a list of assignments, when each has the `k = %s` shape. */
  function AssignedKeys(ps: seq<string>): (r: Option<seq<string>>)
    ensures r.Some? ==> |r.value| == |ps|
  {
    if |ps| == 0 then Some([])
    else
      var p := ps[0];
      if |p| >= |AssignTail| && p[|p| - |AssignTail|..] == AssignTail then
        match AssignedKeys(ps[1..])
        case None => None
        case Some(rest) => Some([p[..|p| - |AssignTail|]] + rest)
      else None
  }

  /** Reads the assigned keys back from an UPDATE text. */
  function ParseUpdate(sql: string): Option<seq<string>> {
    match Between(sql, UpdateHead, UpdateTail)
    case None => None
    case Some(body) => AssignedKeys(SplitOn(body, ", "))
  }

  lemma {:induction false} AssignedKeysOf(keys: seq<string>)
    ensures AssignedKeys(Assignments(keys)) == Some(keys)
    decreases |keys|
  {
    if |keys| > 0 {
      var p := keys[0] + AssignTail;
      assert p[|p| - |AssignTail|..] == AssignTail;
      assert p[..|p| - |AssignTail|] == keys[0];
      assert Assignments(keys)[1..] == Assignments(keys[1..]);
      AssignedKeysOf(keys[1..]);
      assert keys == [keys[0]] + keys[1..];
    }
  }

  /** The UPDATE text assigns exactly the keys, in order, for keys without
      ','. */
  lemma UpdateRoundTrip(keys: seq<string>)
    requires keys != []
    requires forall k :: 0 <= k < |keys| ==> ',' !in keys[k]
    ensures ParseUpdate(UpdateSql(keys)) == Some(keys)
  {
    var ps := Assignments(keys);
    BetweenOf(UpdateHead, Join(", ", ps), UpdateTail);
    forall k | 0 <= k < |ps|
      ensures EndsBefore(ps[k], ", ")
    {
      assert ',' !in AssignTail;
      assert ',' !in ps[k];
      EndsBeforeByHead(ps[k], ", ");
    }
    SplitOnJoin(ps, ", ");
    AssignedKeysOf(keys);
  }

  // search_products

  /** One search condition with its argument. */
  datatype Filter =
    | NameLike(pattern: string)
    | CategoryIs(category: string)
    | PriceAtLeast(low: Value)
    | PriceAtMost(high: Value)

  /** The position of a condition in the order the method appends them. */
  function Rank(f: Filter): nat {
    match f
    case NameLike(_) => 0
    case CategoryIs(_) => 1
    case PriceAtLeast(_) => 2
    case PriceAtMost(_) => 3
  }

  /** The condition text before its marker. */
  function ConditionHead(f: Filter): string {
    match f
    case NameLike(_) => "name ILIKE "
    case CategoryIs(_) => "category = "
    case PriceAtLeast(_) => "price >= "
    case PriceAtMost(_) => "price <= "
  }

  function Condition(f: Filter): string {
    ConditionHead(f) + "%s"
  }

  function Param(f: Filter): Value {
    match f
    case NameLike(p) => Str(p)
    case CategoryIs(c) => Str(c)
    case PriceAtLeast(v) => v
    case PriceAtMost(v) => v
  }

  function Conditions(fs: seq<Filter>): (r: seq<string>)
    ensures |r| == |fs| && forall k :: 0 <= k < |fs| ==> r[k] == Condition(fs[k])
  {
    seq(|fs|, k requires 0 <= k < |fs| => Condition(fs[k]))
  }

  function Params(fs: seq<Filter>): (r: seq<Value>)
    ensures |r| == |fs| && forall k :: 0 <= k < |fs| ==> r[k] == Param(fs[k])
  {
    seq(|fs|, k requires 0 <= k < |fs| => Param(fs[k]))
  }

  /** Whether a condition of the given rank is among the filters. */
  predicate HasRank(fs: seq<Filter>, n: nat) {
    exists k :: 0 <= k < |fs| && Rank(fs[k]) == n
  }

  /** A filter carries the argument it was made from. */
  predicate FromArguments(f: Filter, name: Option<string>, category: Option<string>, low: Value, high: Value) {
    match f
    case NameLike(p) => name.Some? && p == LikePattern(name.value)
    case CategoryIs(c) => category == Some(c)
    case PriceAtLeast(v) => v == low
    case PriceAtMost(v) => v == high
  }

  /** At most one filter, of rank `n`. */
  predicate OneOfRank(g: seq<Filter>, n: nat) {
    |g| <= 1 && forall k :: 0 <= k < |g| ==> Rank(g[k]) == n
  }

  /** Filters in strictly increasing rank: each kind at most once, in the
      order the method appends them. */
  predicate Ascending(fs: seq<Filter>) {
    forall i, j :: 0 <= i < j < |fs| ==> Rank(fs[i]) < Rank(fs[j])
  }

  /** Four parts of ranks 0 to 3, concatenated, are in ascending order and
      hold rank `n` exactly when part `n` is non-empty. */
  lemma Layered(a: seq<Filter>, b: seq<Filter>, c: seq<Filter>, d: seq<Filter>)
    requires OneOfRank(a, 0) && OneOfRank(b, 1) && OneOfRank(c, 2) && OneOfRank(d, 3)
    ensures Ascending(a + b + c + d)
    ensures HasRank(a + b + c + d, 0) <==> a != []
    ensures HasRank(a + b + c + d, 1) <==> b != []
    ensures HasRank(a + b + c + d, 2) <==> c != []
    ensures HasRank(a + b + c + d, 3) <==> d != []
  {
    var fs := a + b + c + d;
    assert forall k :: 0 <= k < |fs| ==> Rank(fs[k]) == (if k < |a| then 0 else if k < |a| + |b| then 1 else if k < |a| + |b| + |c| then 2 else 3);
    if a != [] { assert Rank(fs[0]) == 0; }
    if b != [] { assert Rank(fs[|a|]) == 1; }
    if c != [] { assert Rank(fs[|a| + |b|]) == 2; }
    if d != [] { assert Rank(fs[|a| + |b| + |c|]) == 3; }
  }

  /** Every filter of a concatenation comes from one of its parts. */
  lemma FromParts(a: seq<Filter>, b: seq<Filter>, c: seq<Filter>, d: seq<Filter>,
                  name: Option<string>, category: Option<string>, low: Value, high: Value)
    requires forall k :: 0 <= k < |a| ==> FromArguments(a[k], name, category, low, high)
    requires forall k :: 0 <= k < |b| ==> FromArguments(b[k], name, category, low, high)
    requires forall k :: 0 <= k < |c| ==> FromArguments(c[k], name, category, low, high)
    requires forall k :: 0 <= k < |d| ==> FromArguments(d[k], name, category, low, high)
    ensures forall k :: 0 <= k < |a + b + c + d| ==> FromArguments((a + b + c + d)[k], name, category, low, high)
  {
    var fs := a + b + c + d;
    forall k | 0 <= k < |fs|
      ensures FromArguments(fs[k], name, category, low, high)
    {
      if k < |a| {
        assert fs[k] == a[k];
      } else if k < |a| + |b| {
        assert fs[k] == b[k - |a|];
      } else if k < |a| + |b| + |c| {
        assert fs[k] == c[k - |a| - |b|];
      } else {
        assert fs[k] == d[k - |a| - |b| - |c|];
      }
    }
  }

  /** `f"%{name}%"`: the ILIKE pattern matching any text containing the
      name. */
  function LikePattern(name: string): string {
    "%" + name + "%"
  }

  function NamePart(name: Option<string>, category: Option<string>, low: Value, high: Value): (g: seq<Filter>)
    ensures OneOfRank(g, 0) && (g != [] <==> name.Some? && name.value != "")
    ensures forall k :: 0 <= k < |g| ==> FromArguments(g[k], name, category, low, high)
  {
    if name.Some? && name.value != "" then [NameLike(LikePattern(name.value))] else []
  }

  function CategoryPart(name: Option<string>, category: Option<string>, low: Value, high: Value): (g: seq<Filter>)
    ensures OneOfRank(g, 1) && (g != [] <==> category.Some? && category.value != "")
    ensures forall k :: 0 <= k < |g| ==> FromArguments(g[k], name, category, low, high)
  {
    if category.Some? && category.value != "" then [CategoryIs(category.value)] else []
  }

  function LowPart(name: Option<string>, category: Option<string>, low: Value, high: Value): (g: seq<Filter>)
    ensures OneOfRank(g, 2) && (g != [] <==> low != Null)
    ensures forall k :: 0 <= k < |g| ==> FromArguments(g[k], name, category, low, high)
  {
    if low != Null then [PriceAtLeast(low)] else []
  }

  function HighPart(name: Option<string>, category: Option<string>, low: Value, high: Value): (g: seq<Filter>)
    ensures OneOfRank(g, 3) && (g != [] <==> high != Null)
    ensures forall k :: 0 <= k < |g| ==> FromArguments(g[k], name, category, low, high)
  {
    if high != Null then [PriceAtMost(high)] else []
  }

  /** The conditions `search_products` collects.  `name` and `category`
      filter only when truthy; the price bounds whenever they are not None
      (`Null`), so also at 0. */
  function SearchFilters(name: Option<string>, category: Option<string>, low: Value, high: Value): (fs: seq<Filter>)
    ensures Ascending(fs)
    ensures forall k :: 0 <= k < |fs| ==> FromArguments(fs[k], name, category, low, high)
    ensures HasRank(fs, 0) <==> name.Some? && name.value != ""
    ensures HasRank(fs, 1) <==> category.Some? && category.value != ""
    ensures HasRank(fs, 2) <==> low != Null
    ensures HasRank(fs, 3) <==> high != Null
  {
    var a := NamePart(name, category, low, high);
    var b := CategoryPart(name, category, low, high);
    var c := LowPart(name, category, low, high);
    var d := HighPart(name, category, low, high);
    Layered(a, b, c, d);
    FromParts(a, b, c, d, name, category, low, high);
    a + b + c + d
  }

  /** The line break and indentation inside the method's triple-quoted
      query. */
  const Indent := "\n            "
  const SearchHead := Indent + "SELECT * FROM products " + Indent + "WHERE "
  const OrderBy := Indent + "ORDER BY created_at DESC" + Indent + "LIMIT "
  const SearchTail := OrderBy + "%s" + " OFFSET " + "%s" + "\n        "
  const NoConditions := "1=1"

  /** `" AND ".join(conditions) if conditions else "1=1"`. */
  function WhereClause(conds: seq<string>): string {
    if conds == [] then NoConditions else Join(" AND ", conds)
  }

  /** `search_products(name, category, min_price, max_price, limit,
      offset)` up to the cursor. */
  function SearchProducts(name: Option<string>, category: Option<string>, low: Value, high: Value,
                          limit: int, offset: int): (r: Statement)
    ensures Binds(r)
    ensures |r.params| >= 2 && r.params[|r.params| - 2..] == [Int(limit), Int(offset)]
    ensures r.params[..|r.params| - 2] == Params(SearchFilters(name, category, low, high))
    ensures ParseSearch(r.sql) == Some(Conditions(SearchFilters(name, category, low, high)))
  {
    var fs := SearchFilters(name, category, low, high);
    SearchBinds(fs);
    SearchRoundTrip(fs);
    var ps := Params(fs) + [Int(limit), Int(offset)];
    assert ps[..|ps| - 2] == Params(fs);
    Statement(SearchHead + WhereClause(Conditions(fs)) + SearchTail, ps)
  }

  lemma SearchTailMarkers()
    ensures PercentCount(SearchTail) == 2 && MarkersOnly(SearchTail)
  {
    OrderByPlain();
    assert '%' !in " OFFSET " && '%' !in "\n        ";
    Marked(OrderBy);
    Suffixed(OrderBy + "%s", " OFFSET ");
    MarkerAlone();
    Concat(OrderBy + "%s" + " OFFSET ", "%s");
    Suffixed(OrderBy + "%s" + " OFFSET " + "%s", "\n        ");
  }

  lemma ConditionMarkers(f: Filter)
    ensures PercentCount(Condition(f)) == 1 && MarkersOnly(Condition(f))
  {
    assert '%' !in ConditionHead(f);
    Marked(ConditionHead(f));
  }

  /** The search text has one marker per condition plus the two for
      `LIMIT` and `OFFSET`, and no other `%`. */
  lemma SearchBinds(fs: seq<Filter>)
    ensures PercentCount(SearchHead + WhereClause(Conditions(fs)) + SearchTail) == |fs| + 2
    ensures MarkersOnly(SearchHead + WhereClause(Conditions(fs)) + SearchTail)
  {
    SearchHeadPlain();
    assert '%' !in NoConditions && '%' !in " AND ";
    var conds := Conditions(fs);
    var w := WhereClause(conds);
    if conds == [] {
      NoPercent(NoConditions);
    } else {
      forall k | 0 <= k < |conds|
        ensures PercentCount(conds[k]) == 1 && MarkersOnly(conds[k])
      {
        ConditionMarkers(fs[k]);
      }
      JoinMarkers(" AND ", conds, 1);
    }
    SearchTailMarkers();
    Prefixed(SearchHead, w);
    Concat(SearchHead + w, SearchTail);
  }

  /** Reads the conditions back from a search text. */
  function ParseSearch(sql: string): Option<seq<string>> {
    match Between(sql, SearchHead, SearchTail)
    case None => None
    case Some(w) => if w == NoConditions then Some([]) else Some(SplitOn(w, " AND "))
  }

  lemma ConditionEndsBefore(f: Filter)
    ensures EndsBefore(Condition(f), " AND ")
  {
    var c := Condition(f);
    assert c[|c| - 1] == 's';
    assert 'A' in " AND ";
    EndsBeforeByChars(c, " AND ", 'A');
  }

  /** The WHERE clause of the search text lists the conditions in order, and
      `1=1` stands for none. */
  lemma SearchRoundTrip(fs: seq<Filter>)
    ensures ParseSearch(SearchHead + WhereClause(Conditions(fs)) + SearchTail) == Some(Conditions(fs))
  {
    var conds := Conditions(fs);
    BetweenOf(SearchHead, WhereClause(conds), SearchTail);
    if conds != [] {
      forall k | 0 <= k < |conds|
        ensures EndsBefore(conds[k], " AND ")
      {
        ConditionEndsBefore(fs[k]);
      }
      SplitOnJoin(conds, " AND ");
      JoinStartsWith(" AND ", conds);
      assert conds[0][0] != '1';
    }
  }

  /** A join starts with the first piece. */
  lemma JoinStartsWith(sep: string, ps: seq<string>)
    requires |ps| > 0
    ensures |Join(sep, ps)| >= |ps[0]| && Join(sep, ps)[..|ps[0]|] == ps[0]
  {
    if |ps| > 1 {
      assert Join(sep, ps) == ps[0] + (sep + Join(sep, ps[1..]));
    }
  }
}
