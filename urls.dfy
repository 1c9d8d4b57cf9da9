/**
  * URLs as urllib's `urlparse` splits them, and the "clean" string the crawler
  * rebuilds from one (app.py:31-34).
  */
module Urls {
  import opened Wrappers

  /** The six components `urlparse` returns. `params` is what follows a `;`
      in the last path segment. */
  datatype Url = Url(scheme: string, netloc: string, path: string, params: string, query: string, fragment: string)

  /** `?query` when the query is non-empty, nothing otherwise (app.py:33-34). */
  function QuerySuffix(query: string): string
  {
    if query != "" then "?" + query else ""
  }

  /** The string the crawler stores for a link: scheme, "://", netloc, path and
      the query suffix. Params and fragment are not part of it (app.py:32-34). */
  function CleanUrl(u: Url): string
  {
    u.scheme + "://" + u.netloc + u.path + QuerySuffix(u.query)
  }

  /** No character of `s` is in `cs`. */
  predicate NoneOf(s: string, cs: set<char>)
  {
    forall i :: 0 <= i < |s| ==> s[i] !in cs
  }

  /** The characters of a scheme as `urlparse` returns it, lower-cased. */
  predicate IsSchemeChar(c: char)
  {
    'a' <= c <= 'z' || '0' <= c <= '9' || c == '+' || c == '-' || c == '.'
  }

  /** A scheme `urlparse` recognises: non-empty and opened by a letter. */
  predicate IsScheme(s: string)
  {
    |s| > 0 && 'a' <= s[0] <= 'z' && forall i :: 0 <= i < |s| ==> IsSchemeChar(s[i])
  }

  /** Characters `urlparse` never leaves in a component: it splits the
      fragment off at `#` and deletes tabs and line breaks. */
  const Dropped: set<char> := {'#', '\t', '\n', '\r'}

  /** A `;` in the last segment of a path: `urlparse` would split params off
      there. */
  predicate ParamFree(path: string)
  {
    forall i :: 0 <= i < |path| && path[i] == ';' ==> '/' in path[i + 1..]
  }

  /** The components hold nothing `urlparse` would split off, delete or
      refuse: no dropped characters, no brackets in the netloc (IPv6
      literals are checked by `urlparse`), an ASCII netloc (a non-ASCII one
      is checked under NFKC normalisation), no params in the path. */
  predicate Verbatim(u: Url)
  {
    NoneOf(u.netloc, Dropped + {'[', ']'}) && (forall i :: 0 <= i < |u.netloc| ==> u.netloc[i] < '\U{80}') &&
    NoneOf(u.path, Dropped) && NoneOf(u.query, Dropped) && ParamFree(u.path)
  }

  /** The delimiters of an absolute URL: a lower-case scheme opened by a
      letter, a netloc without `/` or `?`, and a path without `?` that is
      empty or starts with `/`. */
  predicate Shaped(u: Url)
  {
    IsScheme(u.scheme) && NoneOf(u.netloc, {'/', '?'}) && NoneOf(u.path, {'?'}) &&
    (u.path == "" || u.path[0] == '/')
  }

  /** The shape `urlparse` gives an absolute URL whose clean string it reads
      back unchanged. */
  predicate WellFormed(u: Url)
  {
    Shaped(u) && Verbatim(u)
  }

  /** Position of the first character of `s` that is in `cs`, or `|s|`. */
  function IndexOfAny(s: string, cs: set<char>): (r: nat)
    ensures r <= |s|
    ensures forall i :: 0 <= i < r ==> s[i] !in cs
    ensures r < |s| ==> s[r] in cs
  {
    if s == [] || s[0] in cs then 0 else 1 + IndexOfAny(s[1..], cs)
  }

  lemma {:induction false} IndexOfAnyAt(a: string, b: string, cs: set<char>)
    requires NoneOf(a, cs)
    requires b == [] || b[0] in cs
    ensures IndexOfAny(a + b, cs) == |a|
  {
    if a != [] {
      assert (a + b)[0] == a[0] && (a + b)[1..] == a[1..] + b;
      IndexOfAnyAt(a[1..], b, cs);
    }
  }

  /** Regrouping a concatenation; called where the verifier would otherwise
      search for the grouping among many facts. */
  lemma Assoc(a: string, b: string, c: string)
    ensures a + b + c == a + (b + c)
  {
  }

  /** Splits what follows the netloc into path and query: the path runs up to
      the first `?`. A bare trailing `?` is refused. */
  function DecodePathQuery(tail: string): Option<(string, string)>
  {
    var q := IndexOfAny(tail, {'?'});
    if q + 1 == |tail| then None
    else Some((tail[..q], if q < |tail| then tail[q + 1..] else ""))
  }

  /** Splits what follows `://` into netloc, path and query: the netloc runs
      up to the first `/` or `?`. */
  function DecodeAuthority(rest: string): Option<(string, string, string)>
  {
    var n := IndexOfAny(rest, {'/', '?'});
    var pq := DecodePathQuery(rest[n..]);
    if pq.None? then None else Some((rest[..n], pq.value.0, pq.value.1))
  }

  /** Splits a clean URL string back into its components: the scheme up to the
      first `:`, which must open `://`, then netloc, path and query. Strings
      that `urlparse` would split differently are refused. */
  function Decode(s: string): (r: Option<Url>)
    ensures r.Some? ==> IsScheme(r.value.scheme) && Verbatim(r.value)
    ensures r.Some? ==> r.value.params == "" && r.value.fragment == ""
  {
    var k := IndexOfAny(s, {':'});
    if k + 3 > |s| || s[k..k + 3] != "://" || !IsScheme(s[..k]) then None
    else
      var auth := DecodeAuthority(s[k + 3..]);
      if auth.None? then None
      else
        var u := Url(s[..k], auth.value.0, auth.value.1, "", auth.value.2, "");
        if Verbatim(u) then Some(u) else None
  }

  /** `urlparse` takes no scheme from a string that starts with `:`; such a
      string is refused. */
  lemma DecodeRefusesEmptyScheme(rest: string)
    ensures Decode("://" + rest) == None
  {
    assert IndexOfAny("://" + rest, {':'}) == 0;
  }

  /** `urlparse` lower-cases the scheme; a string with an upper-case letter
      before its first `:` is refused. */
  lemma DecodeRefusesUpperCaseScheme(s: string, i: nat)
    requires i < IndexOfAny(s, {':'}) && 'A' <= s[i] <= 'Z'
    ensures Decode(s) == None
  {
  }

  lemma DecodePathQuerySound(tail: string)
    ensures var r := DecodePathQuery(tail);
            r.Some? ==> NoneOf(r.value.0, {'?'}) && r.value.0 + QuerySuffix(r.value.1) == tail &&
                        (r.value.0 != "" ==> r.value.0[0] == tail[0])
  {
    var q := IndexOfAny(tail, {'?'});
    if q + 1 != |tail| {
      var path := tail[..q];
      assert NoneOf(path, {'?'}) by {
        forall i | 0 <= i < |path| ensures path[i] !in {'?'} {
          assert path[i] == tail[i];
        }
      }
      if q < |tail| {
        var query := tail[q + 1..];
        assert query != "" && tail[q] == '?';
        assert tail == path + ([tail[q]] + query);
      } else {
        assert tail == path;
      }
    }
  }

  lemma DecodeAuthoritySound(rest: string)
    ensures var r := DecodeAuthority(rest);
            r.Some? ==> NoneOf(r.value.0, {'/', '?'}) && NoneOf(r.value.1, {'?'}) &&
                        (r.value.1 == "" || r.value.1[0] == '/') &&
                        r.value.0 + r.value.1 + QuerySuffix(r.value.2) == rest
  {
    var n := IndexOfAny(rest, {'/', '?'});
    var tail := rest[n..];
    DecodePathQuerySound(tail);
    var pq := DecodePathQuery(tail);
    if pq.Some? {
      var netloc, path, query := rest[..n], pq.value.0, pq.value.1;
      assert rest == netloc + tail;
      Assoc(netloc, path, QuerySuffix(query));
      assert NoneOf(netloc, {'/', '?'}) by {
        forall i | 0 <= i < |netloc| ensures netloc[i] !in {'/', '?'} {
          assert netloc[i] == rest[i];
        }
      }
      assert path != "" ==> path[0] == '/' by {
        if path != "" {
          assert path[0] == tail[0] == rest[n];
          assert path[0] != '?';
        }
      }
    }
  }

  lemma CleanUrlOfParts(u: Url)
    ensures CleanUrl(u) == u.scheme + ("://" + (u.netloc + u.path + QuerySuffix(u.query)))
  {
    Assoc(u.scheme + "://" + u.netloc, u.path, QuerySuffix(u.query));
    Assoc(u.scheme + "://", u.netloc, u.path + QuerySuffix(u.query));
    Assoc(u.scheme, "://", u.netloc + (u.path + QuerySuffix(u.query)));
  }

  lemma SplitAtDelimiter(s: string, k: nat)
    requires k + 3 <= |s| && s[k..k + 3] == "://"
    ensures s == s[..k] + ("://" + s[k + 3..])
  {
    assert s == s[..k] + s[k..k + 3] + s[k + 3..];
  }

  /** Whatever `Decode` accepts is a well-formed URL without params or
      fragment whose clean string is the input itself. */
  lemma DecodeSound(s: string)
    ensures Decode(s).Some? ==> WellFormed(Decode(s).value) && CleanUrl(Decode(s).value) == s
    ensures Decode(s).Some? ==> Decode(s).value.params == "" && Decode(s).value.fragment == ""
  {
    var k := IndexOfAny(s, {':'});
    if Decode(s).Some? {
      var scheme, rest := s[..k], s[k + 3..];
      var a := DecodeAuthority(rest).value;
      DecodeAuthoritySound(rest);
      var u := Url(scheme, a.0, a.1, "", a.2, "");
      assert Decode(s) == Some(u);
      SplitAtDelimiter(s, k);
      CleanUrlOfParts(u);
    }
  }

  lemma DecodePathQueryOf(path: string, query: string)
    requires NoneOf(path, {'?'})
    ensures DecodePathQuery(path + QuerySuffix(query)) == Some((path, query))
  {
    var tail := path + QuerySuffix(query);
    IndexOfAnyAt(path, QuerySuffix(query), {'?'});
    assert tail[..|path|] == path;
    assert |path| < |tail| ==> tail[|path| + 1..] == query;
  }

  lemma DecodeAuthorityOf(netloc: string, path: string, query: string)
    requires NoneOf(netloc, {'/', '?'}) && NoneOf(path, {'?'}) && (path == "" || path[0] == '/')
    ensures DecodeAuthority(netloc + (path + QuerySuffix(query))) == Some((netloc, path, query))
  {
    var tail := path + QuerySuffix(query);
    var rest := netloc + tail;
    DecodePathQueryOf(path, query);
    IndexOfAnyAt(netloc, tail, {'/', '?'});
    assert rest[..|netloc|] == netloc && rest[|netloc|..] == tail;
  }

  lemma DecodeOf(scheme: string, rest: string)
    requires IsScheme(scheme) && DecodeAuthority(rest).Some?
    ensures var a := DecodeAuthority(rest).value;
            var u := Url(scheme, a.0, a.1, "", a.2, "");
            Decode(scheme + ("://" + rest)) == if Verbatim(u) then Some(u) else None
  {
    var s := scheme + ("://" + rest);
    var k := |scheme|;
    assert IndexOfAny(s, {':'}) == k by {
      assert NoneOf(scheme, {':'});
      IndexOfAnyAt(scheme, "://" + rest, {':'});
    }
    assert s[..k] == scheme;
    assert s[k..k + 3] == "://";
    assert s[k + 3..] == rest;
  }

  /** Decoding a clean URL gives back every component it was built from; only
      params and fragment are lost. */
  lemma DecodeCleanUrl(u: Url)
    requires WellFormed(u)
    ensures Decode(CleanUrl(u)) == Some(u.(params := "", fragment := ""))
  {
    var e := QuerySuffix(u.query);
    var rest := u.netloc + (u.path + e);
    DecodeAuthorityOf(u.netloc, u.path, u.query);
    DecodeOf(u.scheme, rest);
    assert CleanUrl(u) == u.scheme + ("://" + rest) by {
      CleanUrlOfParts(u);
    }
  }

  /** `urlparse` splits params off the last path segment, a fragment off at
      `#`, and deletes tabs and line breaks; the clean string of a URL
      holding any of these is refused. */
  lemma DecodeRefusesNonVerbatim(u: Url)
    requires Shaped(u) && !Verbatim(u)
    ensures Decode(CleanUrl(u)) == None
  {
    var rest := u.netloc + (u.path + QuerySuffix(u.query));
    DecodeAuthorityOf(u.netloc, u.path, u.query);
    DecodeOf(u.scheme, rest);
    assert CleanUrl(u) == u.scheme + ("://" + rest) by {
      CleanUrlOfParts(u);
    }
  }

  /** Two well-formed URLs give the same clean string exactly when they agree
      on scheme, netloc, path and query. */
  lemma CleanUrlIdentity(u: Url, v: Url)
    requires WellFormed(u) && WellFormed(v)
    ensures CleanUrl(u) == CleanUrl(v) <==>
            u.scheme == v.scheme && u.netloc == v.netloc && u.path == v.path && u.query == v.query
  {
    DecodeCleanUrl(u);
    DecodeCleanUrl(v);
  }

  /** Cleaning is a fixed point: parsing a clean URL and cleaning it again
      yields the same string. */
  lemma CleanUrlIdempotent(u: Url)
    requires WellFormed(u)
    ensures Decode(CleanUrl(u)).Some? && CleanUrl(Decode(CleanUrl(u)).value) == CleanUrl(u)
  {
    DecodeCleanUrl(u);
    DecodeSound(CleanUrl(u));
  }

  lemma NoneOfConcat(a: string, b: string, cs: set<char>)
    requires NoneOf(a, cs) && NoneOf(b, cs)
    ensures NoneOf(a + b, cs)
  {
    forall i | 0 <= i < |a + b| ensures (a + b)[i] !in cs {
      if i < |a| { assert (a + b)[i] == a[i]; } else { assert (a + b)[i] == b[i - |a|]; }
    }
  }

  /** A `?` appears in the clean string iff the query is non-empty. */
  lemma QueryMarkIffQuery(u: Url)
    requires WellFormed(u)
    ensures '?' in CleanUrl(u) <==> u.query != ""
  {
    var base := u.scheme + "://" + u.netloc + u.path;
    assert CleanUrl(u) == base + QuerySuffix(u.query);
    if u.query != "" {
      assert CleanUrl(u)[|base|] == '?';
    } else {
      assert NoneOf(u.scheme, {'?'});
      NoneOfConcat(u.scheme, "://", {'?'});
      NoneOfConcat(u.scheme + "://", u.netloc, {'?'});
      NoneOfConcat(u.scheme + "://" + u.netloc, u.path, {'?'});
      assert CleanUrl(u) == base;
    }
  }

  /** Neither params nor fragment influences the clean string. */
  lemma CleanUrlDropsParamsAndFragment(u: Url, params: string, fragment: string)
    ensures CleanUrl(u.(params := params, fragment := fragment)) == CleanUrl(u)
  {
  }
}
