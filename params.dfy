/**
 * The extension entries of the Sec-WebSocket-Extensions header:
 * `parse_param_hdr` reads "name; k=v; flag" into a name and a parameter
 * dict, and `format_param_hdr` writes one. A value of all digits is read as
 * an int, a key without a value as True; True is written as a bare key, and
 * False and None are left out.
 *
 * As written, the source separates parameters by ", " when formatting and
 * splits them at "," when parsing, while the header itself is a list split
 * at ","; and `parse_param_hdr` yields its result instead of returning it.
 * The corrected pair separates parameters by ";" as the extension grammar of
 * section 9.1 of RFC 6455 does, and returns the pair.
 */
module ParamHeaders {
  import opened Errors
  import opened Strings
  import opened Dicts
  import opened Extensions

  /** A parameter value as read: all digits make an int, anything else stays text. */
  function ParseValue(v: string): (r: Value)
    ensures r.IntVal? <==> IsDigits(v)
    ensures r.StrVal? ==> r.s == v
  {
    if IsDigits(v) then IntVal(ParseNat(v)) else StrVal(v)
  }

  /** One parameter: `k=v` split at the first '=' with both sides stripped, or a bare key meaning True. */
  function ParseParam(param: string): (r: (string, Value))
    ensures '=' !in param ==> r == (param, BoolVal(true))
    ensures '=' in param ==>
      var i := FirstIndex(param, '=');
      r == (Strip(param[..i]), ParseValue(Strip(param[i + 1..])))
  {
    if '=' in param then
      SplitStrippedOnce(param, '=');
      var kv := SplitStripped(param, '=', 1);
      (kv[0], ParseValue(kv[1]))
    else (param, BoolVal(true))
  }

  /** Reads one parameter text as a key and a value. */
  type ParamReader = string -> (string, Value)

  /**
   * The parameter dict: each parameter read and assigned in turn, a later
   * one overriding an earlier. The handshake reads with ParseParam.
   */
  function ReadParams(read: ParamReader, acc: Dict<Value>, params: seq<string>): Dict<Value>
    decreases |params|
  {
    if |params| == 0 then acc
    else
      var (k, v) := read(params[0]);
      ReadParams(read, Set(acc, k, v), params[1..])
  }

  /** The name and parameter text of an entry: split at the first ';', or the whole entry and no parameters. */
  function NameAndParams(hdr: string): (r: (string, string))
    ensures ';' !in hdr ==> r == (hdr, "")
    ensures ';' in hdr ==>
      var i := FirstIndex(hdr, ';');
      r == (Strip(hdr[..i]), Strip(hdr[i + 1..]))
  {
    if ';' in hdr then
      SplitStrippedOnce(hdr, ';');
      var np := SplitStripped(hdr, ';', 1);
      (np[0], np[1])
    else (hdr, "")
  }

  /** What `parse_param_hdr` yields as written: parameters split at ','. */
  function ParseParamHdrAsWritten(hdr: string): (r: (string, Dict<Value>))
    ensures r.0 == NameAndParams(hdr).0
  {
    var (name, paramstr) := NameAndParams(hdr);
    (name, ReadParams(ParseParam, [], SplitStripped(paramstr, ',', -1)))
  }

  /**
   * `name, params = parse_param_hdr(ext)` as written: the function is a
   * generator that yields one pair, and unpacking its single item into two
   * names raises a ValueError, whatever the entry.
   */
  function UnpackParamHdrAsWritten(hdr: string): (r: Result<(string, Dict<Value>)>)
    ensures r == Err(UnpackError)
  {
    var yielded := [ParseParamHdrAsWritten(hdr)];
    if |yielded| == 2 then Ok(ParseParamHdrAsWritten(hdr)) else Err(UnpackError)
  }

  /** `parse_param_hdr` corrected: the pair returned, parameters separated by ';'. */
  function ParseParamHdr(hdr: string): (r: (string, Dict<Value>))
    ensures r.0 == NameAndParams(hdr).0
    ensures ';' !in hdr ==> r == (hdr, [])
  {
    var (name, paramstr) := NameAndParams(hdr);
    (name, ReadParams(ParseParam, [], SplitStripped(paramstr, ';', -1)))
  }

  /** `fmt_param`: True as the bare key, False and None left out, anything else `k=str(v)`. */
  function FormatParam(k: string, v: Value): (r: Option<string>)
    ensures r.None? <==> v == BoolVal(false) || v.NoneVal?
    ensures v == BoolVal(true) ==> r == Some(k)
  {
    match v
    case BoolVal(b) => if b then Some(k) else None
    case NoneVal => None
    case IntVal(i) => Some(k + "=" + IntToString(i))
    case StrVal(s) => Some(k + "=" + s)
  }

  /** `fmt_param`'s text for one parameter, when `filter(None, ...)` keeps it: written and not empty. */
  function Kept(param: (string, Value)): (r: seq<string>)
    ensures r == [] <==> FormatParam(param.0, param.1).None? || FormatParam(param.0, param.1) == Some("")
    ensures r != [] ==> r == [FormatParam(param.0, param.1).value]
  {
    match FormatParam(param.0, param.1)
    case None => []
    case Some(p) => if p == "" then [] else [p]
  }

  /**
   * `filter(None, map(fmt_param, params.items()))`: the texts of the written
   * parameters in order, without the None of False and None values and
   * without the empty text of an empty key set to True.
   */
  function FormattedParams(params: Dict<Value>): (r: seq<string>)
    ensures |r| <= |params|
    ensures forall i :: 0 <= i < |r| ==> r[i] != ""
    ensures forall s :: s in r <==> exists i :: 0 <= i < |params| && s in Kept(params[i])
  {
    if |params| == 0 then []
    else
      var rest := FormattedParams(params[1..]);
      assert forall i :: 0 <= i < |params[1..]| ==> params[1..][i] == params[i + 1];
      forall s, i | 1 <= i < |params| && s in Kept(params[i])
        ensures exists j :: 0 <= j < |params[1..]| && s in Kept(params[1..][j])
      {
        assert params[1..][i - 1] == params[i];
      }
      Kept(params[0]) + rest
  }

  /** Formatting a dict made of two parts formats each part, in order. */
  lemma {:induction false} FormattedConcat(a: Dict<Value>, b: Dict<Value>)
    ensures FormattedParams(a + b) == FormattedParams(a) + FormattedParams(b)
    decreases |a|
  {
    if |a| > 0 {
      assert (a + b)[0] == a[0] && (a + b)[1..] == a[1..] + b;
      FormattedConcat(a[1..], b);
    } else {
      assert a + b == b;
    }
  }

  /** The empty key set to True, which a header like "x; a;;b" parses to, is not written. */
  lemma EmptyFlagDropped()
    ensures FormattedParams([("", BoolVal(true)), ("a", BoolVal(true))]) == ["a"]
    ensures FormatParamHdr("x", [("", BoolVal(true)), ("a", BoolVal(true))]) == "x; a"
  {
    var d := [("", BoolVal(true)), ("a", BoolVal(true))];
    assert d[1..][1..] == [];
    assert FormattedParams(d[1..]) == ["a"];
  }

  /** `format_param_hdr` as written: the bare name without parameters, else parameters joined by ", ". */
  function FormatParamHdrAsWritten(value: string, params: Dict<Value>): (r: string)
    ensures |params| == 0 ==> r == value
    ensures |params| > 0 ==> r == value + "; " + Join(FormattedParams(params), ", ")
  {
    if |params| == 0 then value else value + "; " + Join(FormattedParams(params), ", ")
  }

  /** `format_param_hdr` corrected: parameters joined by "; ". */
  function FormatParamHdr(value: string, params: Dict<Value>): (r: string)
    ensures |params| == 0 ==> r == value
    ensures |params| > 0 ==> r == value + "; " + Join(FormattedParams(params), "; ")
  {
    if |params| == 0 then value else value + "; " + Join(FormattedParams(params), "; ")
  }

  /**
   * The as-written formatter puts a second parameter after a ',', so the
   * header list, split at ',', sees it as an entry of its own: "x; a, b" is
   * the extension x with parameter a, and an extension named b.
   */
  lemma ParamsSplitAcrossEntries()
    ensures var hdr := FormatParamHdrAsWritten("x", [("a", BoolVal(true)), ("b", BoolVal(true))]);
      && hdr == "x; a, b"
      && SplitStripped(hdr, ',', -1) == ["x; a", "b"]
      && ParseParamHdrAsWritten(SplitStripped(hdr, ',', -1)[1]) == ("b", [])
  {
    TwoFlagsAsWritten();
    assert Join(["x; a", "b"], [',', ' ']) == "x; a, b";
    SplitStrippedJoin(["x; a", "b"], ',');
    BareName("b");
  }

  lemma TwoFlagsAsWritten()
    ensures FormatParamHdrAsWritten("x", [("a", BoolVal(true)), ("b", BoolVal(true))]) == "x; a, b"
  {
    var params := [("a", BoolVal(true)), ("b", BoolVal(true))];
    assert params[1..] == [("b", BoolVal(true))];
    assert FormattedParams(params) == ["a", "b"];
    assert Join(["a", "b"], ", ") == "a, b";
  }

  /** An entry without ';' is a bare name, without parameters. */
  lemma BareName(hdr: string)
    requires ';' !in hdr
    ensures ParseParamHdrAsWritten(hdr) == (hdr, [])
  {
  }

  // ---------------------------------------------------------------- round trip

  /** A name or key the header can carry: non-empty, stripped, and free of the separators. */
  predicate Token(s: string) {
    s != "" && Stripped(s) && ';' !in s && ',' !in s && '=' !in s
  }

  /** A value that is written so that it reads back as itself. */
  predicate Writable(v: Value) {
    match v
    case IntVal(i) => i >= 0
    case BoolVal(b) => b
    case StrVal(s) => Stripped(s) && ';' !in s && ',' !in s && !IsDigits(s)
    case NoneVal => false
  }

  predicate WritableParams(params: Dict<Value>) {
    UniqueKeys(params) && forall i :: 0 <= i < |params| ==> Token(params[i].0) && Writable(params[i].1)
  }

  /** A written parameter reads back as its key and value. */
  lemma ParamRoundTrip(k: string, v: Value)
    requires Token(k) && Writable(v)
    ensures FormatParam(k, v).Some? && ParseParam(FormatParam(k, v).value) == (k, v)
  {
    match v
    case BoolVal(_) =>
    case IntVal(i) =>
      var digits := NatToString(i);
      DigitsShape(digits);
      ParseNatToString(i);
      ParsedAfterEquals(k, digits);
    case StrVal(s) =>
      ParsedAfterEquals(k, s);
  }

  /** A written parameter is clean text. */
  lemma ParamClean(k: string, v: Value)
    requires Token(k) && Writable(v)
    ensures FormatParam(k, v).Some? && Clean(FormatParam(k, v).value)
  {
    match v
    case BoolVal(_) =>
    case IntVal(i) =>
      var digits := NatToString(i);
      DigitsShape(digits);
      AssignmentStripped(k, digits);
    case StrVal(s) =>
      AssignmentStripped(k, s);
  }

  /** Digits are stripped and hold no separator. */
  lemma DigitsShape(s: string)
    requires IsDigits(s)
    ensures Stripped(s) && ';' !in s && ',' !in s
  {
    assert IsDigit(s[0]) && IsDigit(s[|s| - 1]);
    forall j | 0 <= j < |s|
      ensures s[j] != ';' && s[j] != ','
    {
      assert IsDigit(s[j]);
    }
  }

  lemma ParsedAfterEquals(k: string, v: string)
    requires Token(k) && Stripped(v)
    ensures ParseParam(k + "=" + v) == (k, ParseValue(v))
  {
    var p := k + "=" + v;
    assert p == k + ['='] + v;
    FirstIndexAfter(k, '=', v);
    assert p[..|k|] == k;
    assert p[|k| + 1..] == v;
    StripIdempotent(k);
    StripIdempotent(v);
    assert ParseParam(p) == (Strip(k), ParseValue(Strip(v)));
  }

  /** `k=v` of a non-empty stripped key and a stripped value is stripped. */
  lemma AssignmentStripped(k: string, v: string)
    requires k != "" && Stripped(k) && Stripped(v)
    ensures var p := k + "=" + v; p != "" && Stripped(p)
  {
    var p := k + "=" + v;
    assert p[0] == k[0];
    if |v| > 0 {
      assert p[|p| - 1] == v[|v| - 1];
    }
  }

  /** Text that can sit between separators: non-empty, stripped, without ';' or ','. */
  predicate Clean(s: string) {
    s != "" && Stripped(s) && ';' !in s && ',' !in s
  }

  /** Writable parameters are all written, each as clean text. */
  lemma {:induction false} FormattedWritable(params: Dict<Value>)
    requires forall i :: 0 <= i < |params| ==> Token(params[i].0) && Writable(params[i].1)
    ensures forall i :: 0 <= i < |FormattedParams(params)| ==> Clean(FormattedParams(params)[i])
    ensures |params| > 0 ==> |FormattedParams(params)| > 0
    decreases |params|
  {
    if |params| > 0 {
      ParamClean(params[0].0, params[0].1);
      var p := FormatParam(params[0].0, params[0].1).value;
      assert forall i :: 0 <= i < |params[1..]| ==> params[1..][i] == params[i + 1];
      FormattedWritable(params[1..]);
      var rest := FormattedParams(params[1..]);
      assert FormattedParams(params) == [p] + rest;
    }
  }

  /** Every writable parameter, written, reads back as itself. */
  lemma ParamsReadBack()
    ensures forall k, v :: Token(k) && Writable(v) ==>
      FormatParam(k, v).Some? && ParseParam(FormatParam(k, v).value) == (k, v)
  {
    forall k, v | Token(k) && Writable(v)
      ensures FormatParam(k, v).Some? && ParseParam(FormatParam(k, v).value) == (k, v)
    {
      ParamRoundTrip(k, v);
    }
  }

  /** Written parameters read back one by one, with a reader that reads each back. */
  lemma {:induction false} FormattedReadBack(read: ParamReader, params: Dict<Value>)
    requires forall k, v :: Token(k) && Writable(v) ==>
      FormatParam(k, v).Some? && read(FormatParam(k, v).value) == (k, v)
    requires forall i :: 0 <= i < |params| ==> Token(params[i].0) && Writable(params[i].1)
    ensures |FormattedParams(params)| == |params|
    ensures forall i :: 0 <= i < |params| ==> read(FormattedParams(params)[i]) == params[i]
    decreases |params|
  {
    if |params| > 0 {
      ParamClean(params[0].0, params[0].1);
      var p := FormatParam(params[0].0, params[0].1).value;
      assert forall i :: 0 <= i < |params[1..]| ==> params[1..][i] == params[i + 1];
      FormattedReadBack(read, params[1..]);
      assert FormattedParams(params) == [p] + FormattedParams(params[1..]);
    }
  }

  /** The tail of a dict does not hold its first key, and keeps its keys unique. */
  lemma UniqueTail(params: Dict<Value>)
    requires |params| > 0 && UniqueKeys(params)
    ensures UniqueKeys(params[1..])
    ensures params[0].0 !in Keys(params[1..])
  {
    var tail := params[1..];
    assert forall i :: 0 <= i < |tail| ==> tail[i] == params[i + 1];
    forall j | 0 <= j < |tail|
      ensures Keys(tail)[j] != params[0].0
    {
      assert tail[j] == params[j + 1];
    }
  }

  /** Reading texts that each read back as a parameter, after other keys, appends those parameters. */
  lemma {:induction false} ParseAll(read: ParamReader, acc: Dict<Value>, texts: seq<string>, params: Dict<Value>)
    requires |texts| == |params| && UniqueKeys(params)
    requires forall i :: 0 <= i < |texts| ==> read(texts[i]) == params[i]
    requires forall k :: k in Keys(params) ==> k !in Keys(acc)
    ensures ReadParams(read, acc, texts) == acc + params
    decreases |params|
  {
    if |params| > 0 {
      var next := acc + [params[0]];
      ReadFirst(read, acc, texts, params);
      UniqueTail(params);
      KeysFreshAfter(acc, params);
      ShiftReads(read, texts, params);
      ParseAll(read, next, texts[1..], params[1..]);
      assert next + params[1..] == acc + params;
    }
  }

  /** Reading the first text appends the first parameter. */
  lemma ReadFirst(read: ParamReader, acc: Dict<Value>, texts: seq<string>, params: Dict<Value>)
    requires 0 < |texts| == |params| && read(texts[0]) == params[0]
    requires params[0].0 !in Keys(acc)
    ensures ReadParams(read, acc, texts) == ReadParams(read, acc + [params[0]], texts[1..])
  {
    SetFresh(acc, params[0].0, params[0].1);
  }

  lemma ShiftReads(read: ParamReader, texts: seq<string>, params: Dict<Value>)
    requires 0 < |texts| == |params|
    requires forall i :: 0 <= i < |texts| ==> read(texts[i]) == params[i]
    ensures forall i :: 0 <= i < |texts| - 1 ==> read(texts[1..][i]) == params[1..][i]
  {
    forall i | 0 <= i < |texts| - 1
      ensures read(texts[1..][i]) == params[1..][i]
    {
      assert texts[1..][i] == texts[i + 1];
    }
  }

  /** Reading written parameters after other keys appends them, in order. */
  lemma ParseFormatted(acc: Dict<Value>, params: Dict<Value>)
    requires WritableParams(params)
    requires forall k :: k in Keys(params) ==> k !in Keys(acc)
    ensures ReadParams(ParseParam, acc, FormattedParams(params)) == acc + params
  {
    ParamsReadBack();
    FormattedReadBack(ParseParam, params);
    ParseAll(ParseParam, acc, FormattedParams(params), params);
  }

  lemma KeysFreshAfter(acc: Dict<Value>, params: Dict<Value>)
    requires |params| > 0
    requires forall k :: k in Keys(params) ==> k !in Keys(acc)
    requires params[0].0 !in Keys(params[1..])
    ensures forall k :: k in Keys(params[1..]) ==> k !in Keys(acc + [params[0]])
  {
    assert Keys(params) == [params[0].0] + Keys(params[1..]);
    assert Keys(acc + [params[0]]) == Keys(acc) + [params[0].0];
  }

  /** The parameter text written by the corrected formatter reads back as the parameters. */
  lemma ParamsTextRoundTrip(params: Dict<Value>)
    requires |params| > 0 && WritableParams(params)
    ensures var j := Join(FormattedParams(params), "; ");
      && j != "" && Stripped(j)
      && ReadParams(ParseParam, [], SplitStripped(j, ';', -1)) == params
  {
    var fs := FormattedParams(params);
    FormattedWritable(params);
    JoinStripped(fs, "; ");
    SplitStrippedJoin(fs, ';');
    ParseFormatted([], params);
  }

  /** An extension entry written by the corrected formatter reads back as its name and parameters. */
  lemma ParamHdrRoundTrip(name: string, params: Dict<Value>)
    requires Token(name) && WritableParams(params)
    ensures ParseParamHdr(FormatParamHdr(name, params)) == (name, params)
  {
    if |params| > 0 {
      var j := Join(FormattedParams(params), "; ");
      ParamsTextRoundTrip(params);
      NameSplit(name, j);
    }
  }

  /** "name; text" splits at its first ';' into the name and the text. */
  lemma NameSplit(name: string, j: string)
    requires Token(name) && Stripped(j)
    ensures NameAndParams(name + "; " + j) == (name, j)
  {
    var hdr := name + "; " + j;
    assert hdr == name + [';'] + ([' '] + j);
    FirstIndexAfter(name, ';', [' '] + j);
    assert hdr[..|name|] == name && hdr[|name| + 1..] == [' '] + j;
    StripIdempotent(name);
    StripPadded(j);
  }

  /** An entry of the header list: a name with its parameters. */
  predicate WritableEntry(entry: (string, Dict<Value>)) {
    Token(entry.0) && WritableParams(entry.1)
  }

  /** The Sec-WebSocket-Extensions value for a list of entries, as the handshake writes it. */
  function ExtensionsHeader(entries: seq<(string, Dict<Value>)>): (r: string)
    ensures |entries| == 0 ==> r == ""
  {
    Join(seq(|entries|, i requires 0 <= i < |entries| => FormatParamHdr(entries[i].0, entries[i].1)), ", ")
  }

  /** A written entry is non-empty, stripped and has no ','. */
  lemma EntryShape(name: string, params: Dict<Value>)
    requires Token(name) && WritableParams(params)
    ensures var e := FormatParamHdr(name, params); e != "" && Stripped(e) && ',' !in e
  {
    if |params| > 0 {
      var fs := FormattedParams(params);
      FormattedWritable(params);
      var j := Join(fs, "; ");
      JoinStripped(fs, "; ");
      JoinExcludes(fs, "; ", ',');
      LastOfEntry(name, j);
    }
  }

  lemma LastOfEntry(name: string, j: string)
    requires name != "" && j != ""
    ensures var e := name + "; " + j; e[0] == name[0] && e[|e| - 1] == j[|j| - 1]
  {
  }

  /**
   * Splitting the header the handshake writes at ',' and reading each entry
   * gives back the names and parameters that were written.
   */
  lemma ExtensionsHeaderRoundTrip(entries: seq<(string, Dict<Value>)>)
    requires forall i :: 0 <= i < |entries| ==> WritableEntry(entries[i])
    ensures var parts := SplitStripped(ExtensionsHeader(entries), ',', -1);
      && |parts| == |entries|
      && forall i :: 0 <= i < |parts| ==> ParseParamHdr(parts[i]) == entries[i]
  {
    var written := seq(|entries|, i requires 0 <= i < |entries| => FormatParamHdr(entries[i].0, entries[i].1));
    forall i | 0 <= i < |written|
      ensures written[i] != "" && Stripped(written[i]) && ',' !in written[i]
    {
      EntryShape(entries[i].0, entries[i].1);
    }
    SplitStrippedJoin(written, ',');
    forall i | 0 <= i < |entries|
      ensures ParseParamHdr(written[i]) == entries[i]
    {
      ParamHdrRoundTrip(entries[i].0, entries[i].1);
    }
  }
}
