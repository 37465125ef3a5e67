/**
 * The query string of the page: `getURLParams` reads `location.search`
 * into a dictionary, and `linesPerPage` takes the page size from its `l`
 * entry. The query string is a parameter: `None` when the page is not
 * rendered in a browser, `Some(location.search)` otherwise.
 */
module QueryParams {
  import opened Wrappers
  import opened JsNumbers
  import opened JsStrings

  /** Parameters are separated by `&`. */
  const Ampersand: string := "&"

  /** A parameter's name and value are separated by `=`. */
  const Equals: string := "="

  /** The dictionary: a name maps to a text, or to `undefined` (None). */
  type Params = map<string, Option<string>>

  /** The page size when the query string does not give one. */
  const DefaultLinesPerPage: int := 10

  /**
   * `paramsStr`: `location.search.slice(1)`, the query string without its
   * first character (the `?`); empty outside a browser.
   */
  function ParamsStr(search: Option<string>): (r: string)
    ensures search.None? || search == Some("") ==> r == ""
    ensures search.Some? && search.value != "" ==> search.value == [search.value[0]] + r
  {
    match search
    case None => ""
    case Some(s) => if |s| == 0 then "" else s[1..]
  }

  /** A one-character text occurs in `s` exactly when its character does. */
  lemma ContainsChar(s: string, c: char)
    ensures Contains(s, [c]) <==> c in s
  {
    if c in s {
      var j :| 0 <= j < |s| && s[j] == c;
      assert s[j..j + 1] == [c];
      assert OccursAt(s, [c], j);
    }
    if Contains(s, [c]) {
      var j :| 0 <= j <= |s| && OccursAt(s, [c], j);
      assert s[j] == s[j..j + 1][0] == c;
      assert s[j] in s;
    }
  }

  /** The text before the first `=`, or all of `s` when it has none. */
  lemma FirstPiece(s: string)
    ensures var h := Split(s, Equals)[0];
      && |h| <= |s| && h == s[..|h|] && '=' !in h
      && (|h| == |s| <==> '=' !in s)
      && (|h| < |s| ==> s[|h|] == '=')
  {
    ContainsChar(s, '=');
    SplitFirst(s, Equals);
    SplitPiecesFree(s, Equals);
    var h := Split(s, Equals)[0];
    ContainsChar(h, '=');
    match IndexOf(s, Equals)
    case None =>
    case Some(i) =>
      assert s[i..i + 1][0] == s[i];
  }

  /**
   * There is a second piece exactly when there is an `=`, and it is the
   * first piece of the text after the first `=`.
   */
  lemma SecondPiece(s: string)
    ensures |Split(s, Equals)| >= 2 <==> '=' in s
    ensures '=' in s ==>
      var h := Split(s, Equals)[0];
      |h| < |s| && Split(s, Equals)[1] == Split(s[|h| + 1..], Equals)[0]
  {
    ContainsChar(s, '=');
    match IndexOf(s, Equals)
    case None =>
      SplitFirst(s, Equals);
    case Some(i) =>
      PiecesAt(s, i);
  }

  /**
   * `param.split('=')[0]`: the name of a parameter, the text before its
   * first `=` (all of it when there is none).
   */
  function ParamKey(param: string): (k: string)
    ensures |k| <= |param| && k == param[..|k|] && '=' !in k
    ensures |k| == |param| <==> '=' !in param
    ensures |k| < |param| ==> param[|k|] == '='
  {
    FirstPiece(param);
    Split(param, Equals)[0]
  }

  /** With the first `=` at `i`, the first piece ends at `i` and the second is the first piece after it. */
  lemma PiecesAt(param: string, i: nat)
    requires IndexOf(param, Equals) == Some(i)
    ensures |Split(param, Equals)| >= 2 && |Split(param, Equals)[0]| == i
    ensures Split(param, Equals)[1] == Split(param[i + 1..], Equals)[0]
  {
    SplitFirst(param, Equals);
    var parts := Split(param, Equals);
    assert parts[1..] == Split(param[i + 1..], Equals);
    assert parts[1] == parts[1..][0];
  }

  /**
   * `v` stands in `param` from index `a` on, holds no `=`, and is followed
   * by an `=` or by the end of `param`.
   */
  predicate ValueAt(param: string, a: int, v: string)
  {
    && 0 <= a && a + |v| <= |param| && param[a..a + |v|] == v && '=' !in v
    && (a + |v| == |param| || param[a + |v|] == '=')
  }

  /** The second piece of a split at `=` is the text between the first `=` and the second (or the end). */
  lemma ValueBetween(param: string)
    requires '=' in param
    ensures |Split(param, Equals)| >= 2
    ensures ValueAt(param, |Split(param, Equals)[0]| + 1, Split(param, Equals)[1])
  {
    SecondPiece(param);
    var k, v := Split(param, Equals)[0], Split(param, Equals)[1];
    var rest := param[|k| + 1..];
    FirstPiece(rest);
    AfterFirst(param, |k| + 1, v);
  }

  /** A first piece of the text after index `i` is a slice of the whole text. */
  lemma AfterFirst(param: string, i: nat, v: string)
    requires i <= |param|
    requires |v| <= |param| - i && v == param[i..][..|v|] && '=' !in v
    requires |v| == |param| - i || param[i..][|v|] == '='
    ensures ValueAt(param, i, v)
  {
    SuffixPrefix(param, i, |v|);
  }

  /** A prefix of a suffix is a slice of the whole. */
  lemma SuffixPrefix(s: string, i: nat, n: nat)
    requires i + n <= |s|
    ensures s[i..][..n] == s[i..i + n]
    ensures i + n < |s| ==> s[i..][n] == s[i + n]
  {
  }

  /**
   * `param.split('=')[1]`: the value of a parameter. It is `undefined`
   * exactly when there is no `=`, and otherwise the text between the first
   * `=` and the second (or the end).
   */
  function ParamValue(param: string): (r: Option<string>)
    ensures r.None? <==> '=' !in param
    ensures r.Some? ==> ValueAt(param, |ParamKey(param)| + 1, r.value)
  {
    SecondPiece(param);
    var parts := Split(param, Equals);
    if |parts| >= 2 then
      ValueBetween(param);
      Some(parts[1])
    else
      None
  }

  /** The dictionary the parameters fill, one after the other, a later one overwriting an earlier one. */
  function ParamsOf(pieces: seq<string>): Params
  {
    if |pieces| == 0 then map[]
    else
      var last := pieces[|pieces| - 1];
      ParamsOf(pieces[..|pieces| - 1])[ParamKey(last) := ParamValue(last)]
  }

  /** Filling in one more parameter adds its name and value to the dictionary. */
  lemma ParamsOfNext(pieces: seq<string>, i: nat)
    requires i < |pieces|
    ensures ParamsOf(pieces[..i + 1]) == ParamsOf(pieces[..i])[ParamKey(pieces[i]) := ParamValue(pieces[i])]
  {
    assert pieces[..i + 1][..i] == pieces[..i];
  }

  /** The names in the dictionary are the names of the parameters. */
  lemma {:induction false} ParamsOfKeys(pieces: seq<string>)
    ensures ParamsOf(pieces).Keys == set p | p in pieces :: ParamKey(p)
  {
    if |pieces| > 0 {
      var init, last := pieces[..|pieces| - 1], pieces[|pieces| - 1];
      ParamsOfKeys(init);
      assert pieces == init + [last];
      assert (set p | p in pieces :: ParamKey(p)) == (set p | p in init :: ParamKey(p)) + {ParamKey(last)};
    }
  }

  /** A name maps to the value of the last parameter with that name. */
  lemma {:induction false} ParamsOfLast(pieces: seq<string>, i: int)
    requires 0 <= i < |pieces|
    requires forall j :: i < j < |pieces| ==> ParamKey(pieces[j]) != ParamKey(pieces[i])
    ensures ParamKey(pieces[i]) in ParamsOf(pieces)
    ensures ParamsOf(pieces)[ParamKey(pieces[i])] == ParamValue(pieces[i])
  {
    var init := pieces[..|pieces| - 1];
    if i < |pieces| - 1 {
      ParamsOfLast(init, i);
    }
  }

  /**
   * `paramsArr`: the parameters of the query string, the pieces between
   * its `&`s. There is at least one, and joined with `&` they give the
   * query string back.
   */
  function QueryPieces(search: Option<string>): (r: seq<string>)
    ensures |r| >= 1
    ensures Join(r, Ampersand) == ParamsStr(search)
  {
    SplitJoin(ParamsStr(search), Ampersand);
    Split(ParamsStr(search), Ampersand)
  }

  /** `getURLParams()` as a function of the query string. */
  function URLParams(search: Option<string>): Params
  {
    ParamsOf(QueryPieces(search))
  }

  /** `getURLParams`: split the query string at `&` and fill the dictionary, parameter by parameter. */
  method GetURLParams(search: Option<string>) returns (params: Params)
    ensures params == URLParams(search)
  {
    var paramsArr := QueryPieces(search);
    params := map[];
    var i := 0;
    while i < |paramsArr|
      invariant 0 <= i <= |paramsArr|
      invariant params == ParamsOf(paramsArr[..i])
    {
      var param := paramsArr[i];
      ParamsOfNext(paramsArr, i);
      params := params[ParamKey(param) := ParamValue(param)];
      i := i + 1;
    }
    assert paramsArr[..i] == paramsArr;
  }

  /** Without a query string the dictionary holds only the empty name, mapped to `undefined`. */
  lemma NoQuery(search: Option<string>)
    requires search.None? || search == Some("") || search == Some("?")
    ensures URLParams(search) == map["" := None]
  {
    assert ParamsStr(search) == "";
    SplitEmpty(Ampersand);
    SplitEmpty(Equals);
    assert ParamKey("") == "" && ParamValue("") == None;
    assert [""][..0] == [];
  }

  /**
   * `paramsObj.l ? parseInt(paramsObj.l, 10) : 10`: the default when `l` is
   * missing, `undefined` or empty, and otherwise whatever `parseInt` reads.
   */
  function PageSize(params: Params): (r: JsNumber)
    ensures "l" !in params || params["l"] == None || params["l"] == Some("") ==> r == Finite(DefaultLinesPerPage)
    ensures "l" in params && params["l"].Some? && params["l"].value != "" ==> r == ParseInt(params["l"].value)
    ensures "l" in params && params["l"].Some? && |params["l"].value| > 0 && AllDigits(params["l"].value) ==>
      r == Finite(DigitsValue(params["l"].value))
  {
    if "l" in params && params["l"].Some? && params["l"].value != "" then
      ParseInt(params["l"].value)
    else
      Finite(DefaultLinesPerPage)
  }

  /** When no parameter is named `l`, the page size is the default 10. */
  lemma AbsentPageSize(search: Option<string>)
    requires forall i :: 0 <= i < |QueryPieces(search)| ==> ParamKey(QueryPieces(search)[i]) != "l"
    ensures PageSize(URLParams(search)) == Finite(DefaultLinesPerPage)
  {
    var pieces := QueryPieces(search);
    ParamsOfKeys(pieces);
    assert "l" !in set p | p in pieces :: ParamKey(p);
  }

  /**
   * The last parameter named `l` decides the page size: the default 10
   * when it has no `=` or an empty value, else `parseInt` of its value.
   */
  lemma LastPageSize(search: Option<string>, i: int)
    requires 0 <= i < |QueryPieces(search)| && ParamKey(QueryPieces(search)[i]) == "l"
    requires forall j :: i < j < |QueryPieces(search)| ==> ParamKey(QueryPieces(search)[j]) != "l"
    ensures var v := ParamValue(QueryPieces(search)[i]);
      && (v.None? || v == Some("") ==> PageSize(URLParams(search)) == Finite(DefaultLinesPerPage))
      && (v.Some? && v.value != "" ==> PageSize(URLParams(search)) == ParseInt(v.value))
  {
    ParamsOfLast(QueryPieces(search), i);
  }

  /** `linesPerPage()`: the page size the query string gives. */
  method LinesPerPage(search: Option<string>) returns (n: JsNumber)
    ensures n == PageSize(URLParams(search))
  {
    var params := GetURLParams(search);
    n := PageSize(params);
  }

  /** Without a query string the page size is 10. */
  lemma NoQueryPageSize(search: Option<string>)
    requires search.None? || search == Some("") || search == Some("?")
    ensures PageSize(URLParams(search)) == Finite(DefaultLinesPerPage)
  {
    NoQuery(search);
  }

  /** A text without `=` is a parameter name without a value. */
  lemma NoEquals(s: string)
    requires '=' !in s
    ensures Split(s, Equals) == [s]
  {
    ContainsChar(s, '=');
    SplitFirst(s, Equals);
  }

  /** `name=value`, where neither holds an `=`, has that name and that value. */
  lemma NameValue(name: string, value: string)
    requires '=' !in name && '=' !in value
    ensures ParamKey(name + "=" + value) == name
    ensures ParamValue(name + "=" + value) == Some(value)
  {
    var p := name + "=" + value;
    assert OccursAt(p, Equals, |name|) by {
      assert p[|name|..|name| + 1] == Equals;
    }
    forall j | 0 <= j < |name| ensures !OccursAt(p, Equals, j) {
      assert p[j..j + 1][0] == name[j];
    }
    IndexOfFirst(p, Equals, |name|);
    assert p[..|name|] == name && p[|name| + 1..] == value;
    NoEquals(value);
    SplitFirst(p, Equals);
  }

  /** A query string with one parameter `name=value`, neither holding `&` or `=`. */
  lemma OneParam(name: string, value: string)
    requires '=' !in name && '=' !in value && '&' !in name && '&' !in value
    ensures URLParams(Some("?" + name + "=" + value)) == map[name := Some(value)]
  {
    var p := name + "=" + value;
    var q := "?" + name + "=" + value;
    assert q == "?" + p;
    QueryOfOne(p);
    assert URLParams(Some(q)) == ParamsOf([p]);
    NameValue(name, value);
    ParamsOfOne(p);
  }

  /** One parameter gives the dictionary of its name and value alone. */
  lemma ParamsOfOne(p: string)
    ensures ParamsOf([p]) == map[ParamKey(p) := ParamValue(p)]
  {
    assert [p][..0] == [];
  }

  /** A query string `?p`, where `p` holds no `&`, has the one parameter `p`. */
  lemma QueryOfOne(p: string)
    requires '&' !in p
    ensures QueryPieces(Some("?" + p)) == [p]
  {
    assert ("?" + p)[1..] == p;
    assert ParamsStr(Some("?" + p)) == p;
    ContainsChar(p, '&');
    SplitFirst(p, Ampersand);
  }

  /** `?l=v`, for a non-empty `v` without `&` or `=`, gives the page size `parseInt(v, 10)`. */
  lemma ValuePageSize(v: string)
    requires v != "" && '=' !in v && '&' !in v
    ensures PageSize(URLParams(Some("?l=" + v))) == ParseInt(v)
  {
    OneParam("l", v);
    assert "?" + "l" + "=" + v == "?l=" + v;
  }

  /** `?l=` followed by the decimal digits of `n` gives the page size `n`. */
  lemma DecimalPageSize(n: nat)
    ensures PageSize(URLParams(Some("?l=" + DecimalString(n)))) == Finite(n)
  {
    var ds := DecimalString(n);
    assert '=' !in ds && '&' !in ds by {
      assert forall k :: 0 <= k < |ds| ==> IsDigit(ds[k]);
    }
    ValuePageSize(ds);
    ParseIntDecimal(n);
  }

  lemma AbcPlain()
    ensures "abc" != "" && '=' !in "abc" && '&' !in "abc" && "?l=" + "abc" == "?l=abc"
  {
    var v := "abc";
    assert forall k :: 0 <= k < |v| ==> 'a' <= v[k] <= 'c';
  }

  lemma AbcNaN()
    ensures ParseInt("abc") == NaN
  {
    assert "abc"[0] == 'a';
  }

  /** `?l=5` gives the page size 5. */
  lemma FiveDigits()
    ensures "?l=" + DecimalString(5) == "?l=5"
  {
  }

  lemma FivePageSize()
    ensures PageSize(URLParams(Some("?l=5"))) == Finite(5)
  {
    FiveDigits();
    DecimalPageSize(5);
  }

  /** A page size that is not a number is NaN, not the default: `?l=abc`. */
  lemma NotNumericPageSize()
    ensures PageSize(URLParams(Some("?l=abc"))) == NaN
  {
    AbcPlain();
    ValuePageSize("abc");
    AbcNaN();
  }

  /** An empty value falls back to the default: `?l=`. */
  lemma EmptyPageSize()
    ensures PageSize(URLParams(Some("?l="))) == Finite(DefaultLinesPerPage)
  {
    OneParam("l", "");
    assert "?" + "l" + "=" + "" == "?l=";
  }

  /** A name without `=` falls back to the default too: `?l`. */
  lemma NoValuePageSize()
    ensures PageSize(URLParams(Some("?l"))) == Finite(DefaultLinesPerPage)
  {
    assert ParamsStr(Some("?l")) == "l";
    assert '&' !in "l" && '=' !in "l";
    ContainsChar("l", '&');
    SplitFirst("l", Ampersand);
    assert QueryPieces(Some("?l")) == ["l"];
    assert ParamKey("l") == "l";
    LastPageSize(Some("?l"), 0);
  }
}
