/** The `key=value` command-line token of a POST request (struct `KvPair`,
    its `FromStr` implementation and the clap value parser `parse_kv_pair`).
    The token is split at every `=` and the first two pieces are taken, so a
    second `=` and everything after it are dropped. */
module KvPairs {
  import opened Wrappers
  import opened Segments

  const Separator: char := '='

  datatype KvPair = KvPair(k: string, v: string)

  /** The text of the error a malformed token reports: `Failed to parse `
      followed by the token. */
  function ParseError(s: string): string
  {
    "Failed to parse " + s
  }

  /** The n-th value an iterator over `parts` yields, None once it is exhausted. */
  function Nth(parts: seq<string>, n: nat): Option<string>
  {
    if n < |parts| then Some(parts[n]) else None
  }

  /** `KvPair::from_str`: two `next()` calls on the split iterator, each
      turning an exhausted iterator into the parse error. */
  function FromStr(s: string): (r: Result<KvPair, string>)
    ensures r.Err? <==> Separator !in s
    ensures r.Err? ==> r.error == ParseError(s)
  {
    var split := Split(s, Separator);
    var err := ParseError(s);
    match Nth(split, 0).ToResult(err)
    case Err(e) => Err(e)
    case Ok(k) =>
      match Nth(split, 1).ToResult(err)
      case Err(e) => Err(e)
      case Ok(v) => Ok(KvPair(k, v))
  }

  /** `parse_kv_pair`: the clap value parser, which passes on the outcome of
      `FromStr`, success or error. */
  function ParseKvPair(s: string): (r: Result<KvPair, string>)
    ensures r.Ok? <==> Separator in s
    ensures r.Ok? ==> SplitsAs(s, r.value.k, r.value.v)
    ensures r.Err? ==> r.error == ParseError(s)
  {
    ParseSplitsAs(s);
    var pair :- FromStr(s);
    Ok(pair)
  }

  /** Reference description of a token that parses to (k, v): it starts with
      `k=v`, neither part holds a `=`, and `v` is followed by a `=` or by the
      end of the token. */
  ghost predicate SplitsAs(s: string, k: string, v: string)
  {
    && Separator !in k
    && Separator !in v
    && k + [Separator] + v <= s
    && (|k| + 1 + |v| == |s| || s[|k| + 1 + |v|] == Separator)
  }

  /** The first piece is never missing: only the second `next()` can fail. */
  lemma KeyAlwaysPresent(s: string)
    ensures Nth(Split(s, Separator), 0).Some?
  {
  }

  /** The second `next()` yields a piece exactly when the token holds a `=`. */
  lemma SecondPieceIffSeparator(s: string)
    ensures Nth(Split(s, Separator), 1).Some? <==> Separator in s
  {
  }

  /** On success the key is the text before the first `=`. */
  lemma ParsedKey(s: string)
    requires Separator in s
    ensures FromStr(s).Ok?
    ensures FromStr(s).value.k == s[..FirstIndex(s, Separator)]
  {
  }

  /** On success the value is the text between the first and the second `=`,
      or up to the end of the token when there is no second `=`. */
  lemma ParsedValue(s: string)
    requires Separator in s
    ensures FromStr(s).Ok?
    ensures FromStr(s).value.v == Prefix(s[FirstIndex(s, Separator) + 1..], Separator)
  {
  }

  /** Neither the key nor the value of a parsed pair ever holds a `=`. */
  lemma ParsedPartsHaveNoSeparator(s: string)
    requires FromStr(s).Ok?
    ensures Separator !in FromStr(s).value.k
    ensures Separator !in FromStr(s).value.v
  {
  }

  /** Parsing succeeds with (k, v) exactly when the token splits as (k, v). */
  lemma {:induction false} ParseSplitsAs(s: string)
    ensures FromStr(s).Ok? ==> SplitsAs(s, FromStr(s).value.k, FromStr(s).value.v)
  {
    if Separator !in s {
      return;
    }
    var i := FirstIndex(s, Separator);
    var rest := s[i + 1..];
    ParsedValue(s);
    ParsedPartsHaveNoSeparator(s);
    var k, v := FromStr(s).value.k, FromStr(s).value.v;
    assert k == s[..i];
    assert s == k + [Separator] + rest;
    assert v <= rest;
    assert k + [Separator] + v <= s;
  }

  lemma {:induction false} SplitsAsParses(s: string, k: string, v: string)
    requires SplitsAs(s, k, v)
    ensures FromStr(s) == Ok(KvPair(k, v))
  {
    var n := |k|;
    assert s[..n] == k;
    assert s[n] == Separator;
    FirstIndexAt(s, Separator, n);
    var rest := s[n + 1..];
    assert rest[..|v|] == v;
    PrefixAt(rest, Separator, |v|);
    ParsedValue(s);
  }

  /** Both directions: FromStr(s) is Ok((k, v)) if and only if SplitsAs(s, k, v). */
  lemma ParseIffSplitsAs(s: string, k: string, v: string)
    ensures FromStr(s) == Ok(KvPair(k, v)) <==> SplitsAs(s, k, v)
  {
    if SplitsAs(s, k, v) {
      SplitsAsParses(s, k, v);
    }
    if FromStr(s) == Ok(KvPair(k, v)) {
      ParseSplitsAs(s);
    }
  }

  /** A pair printed as `k=v` parses back to itself when neither part holds a `=`. */
  lemma PrintParse(p: KvPair)
    requires Separator !in p.k && Separator !in p.v
    ensures FromStr(p.k + [Separator] + p.v) == Ok(p)
  {
    var s := p.k + [Separator] + p.v;
    assert s[..|p.k| + 1 + |p.v|] == s;
    SplitsAsParses(s, p.k, p.v);
  }

  /** A second `=` truncates the value. */
  lemma ExampleSecondSeparator()
    ensures FromStr("a=b=c") == Ok(KvPair("a", "b"))
  {
    SplitsAsParses("a=b=c", "a", "b");
  }

  /** Empty keys and empty values are accepted. */
  lemma ExampleEmptyParts()
    ensures FromStr("=v") == Ok(KvPair("", "v"))
    ensures FromStr("k=") == Ok(KvPair("k", ""))
  {
    SplitsAsParses("=v", "", "v");
    SplitsAsParses("k=", "k", "");
  }

  /** A token without `=`, the empty one included, fails and names itself. */
  lemma ExampleRejected()
    ensures FromStr("") == Err("Failed to parse ")
    ensures FromStr("abc") == Err("Failed to parse abc")
  {
    assert Separator !in "abc" by {
      assert "abc"[0] != Separator && "abc"[1] != Separator && "abc"[2] != Separator;
    }
    assert ParseError("") == "Failed to parse ";
    assert ParseError("abc") == "Failed to parse abc";
  }
}
