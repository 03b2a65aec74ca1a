/** The part of `generateCNIConfig` in hostgw/hostgw.go that needs no I/O:
    choosing the configuration file to patch and building the `sed`
    substitution that writes the node's subnet into it. */
module CniConf {
  import opened Wrappers
  import opened Lex

  /** What listing the configuration directory (files ending in `.conf`,
      `.conflist` or `.json`) returned: the names, or an error. */
  datatype Listing = Listed(files: seq<string>) | ListError

  /** Why the patch did not happen: the listing failed, it found no file
      (`ErrCNIConfNonexist`), or the `sed` run failed. */
  datatype ConfError = ListFailed | ConfNonexist | SedFailed

  /** One `sed -i <expr> <file>` invocation. */
  datatype SedCommand = SedCommand(file: string, expr: string)

  /** The placeholder in the configuration file that receives the subnet. */
  const Placeholder := "__SUBNET_STR__"

  /** Chooses the file to patch: the listing error is passed on, an empty
      listing is `ConfNonexist`, and otherwise the name `sort.Strings` would
      put first, that is, the smallest one. */
  method SelectConfFile(listing: Listing) returns (r: Result<string, ConfError>)
    ensures listing.ListError? ==> r == Failure(ListFailed)
    ensures listing == Listed([]) ==> r == Failure(ConfNonexist)
    ensures listing.Listed? && listing.files != [] ==> r.Success? && IsMinimum(r.value, listing.files)
  {
    if listing.ListError? {
      return Failure(ListFailed);
    }
    var files := listing.files;
    if |files| == 0 {
      return Failure(ConfNonexist);
    }
    var best := files[0];
    LexLeReflexive(best);
    var i := 1;
    while i < |files|
      invariant 1 <= i <= |files|
      invariant best in files[..i]
      invariant forall j | 0 <= j < i :: LexLe(best, files[j])
    {
      if !LexLe(best, files[i]) {
        LexLeTotal(best, files[i]);
        forall j | 0 <= j < i
          ensures LexLe(files[i], files[j])
        {
          LexLeTransitive(files[i], best, files[j]);
        }
        LexLeReflexive(files[i]);
        best := files[i];
      }
      i := i + 1;
    }
    assert files[..i] == files;
    return Success(best);
  }

  /** `k` is the index of the first `/` of `s`. */
  predicate IsFirstSlash(s: string, k: int)
  {
    0 <= k < |s| && s[k] == '/' && '/' !in s[..k]
  }

  /** `strings.Replace(s, "/", "\/", 1)`: only the first `/` is escaped. */
  function EscapeFirstSlash(s: string): (r: string)
    ensures '/' !in s ==> r == s
    ensures forall k | IsFirstSlash(s, k) :: r == s[..k] + "\\/" + s[k + 1..]
  {
    if s == [] then []
    else if s[0] == '/' then
      assert forall k | IsFirstSlash(s, k) :: k == 0;
      "\\/" + s[1..]
    else
      var rest := EscapeFirstSlash(s[1..]);
      assert '/' !in s ==> '/' !in s[1..];
      forall k | IsFirstSlash(s, k)
        ensures [s[0]] + rest == s[..k] + "\\/" + s[k + 1..]
      {
        assert s[1..][..k - 1] == s[1..k];
        assert IsFirstSlash(s[1..], k - 1);
        assert s[..k] == [s[0]] + s[1..][..k - 1];
        assert s[1..][k..] == s[k + 1..];
      }
      [s[0]] + rest
  }

  /** The substitution expression handed to `sed`. */
  function SedExpr(subnetText: string): string
  {
    "s/" + Placeholder + "/" + EscapeFirstSlash(subnetText) + "/g"
  }

  /** The command the front end prepares, or why it prepares none. */
  function PatchPlan(listing: Listing, subnetText: string): (r: Result<SedCommand, ConfError>)
    ensures listing.ListError? ==> r == Failure(ListFailed)
    ensures listing == Listed([]) ==> r == Failure(ConfNonexist)
    ensures listing.Listed? && listing.files != [] ==>
              r.Success? && IsMinimum(r.value.file, listing.files) && r.value.expr == SedExpr(subnetText)
  {
    match listing
    case ListError => Failure(ListFailed)
    case Listed(files) =>
      if files == [] then Failure(ConfNonexist)
      else Success(SedCommand(MinOf(files), SedExpr(subnetText)))
  }

  // How `sed` reads the expression back, as far as delimiters go: a field
  // runs up to the first `/` not preceded by `\`, and `\/` stands for `/`.

  /** `sed -e 's/PAT/REPL/FLAGS'` split into its three fields. */
  datatype Subst = Subst(pattern: string, replacement: string, flags: string)

  /** Reads one `/`-terminated field: the field with `\/` unescaped, and the
      text after its closing `/`; `None` when there is no closing `/`. */
  function ReadField(s: string): Option<(string, string)>
  {
    if s == [] then None
    else if s[0] == '/' then Some(([], s[1..]))
    else if s[0] == '\\' && |s| >= 2 && s[1] == '/' then
      match ReadField(s[2..])
      case None => None
      case Some(p) => Some((['/'] + p.0, p.1))
    else
      match ReadField(s[1..])
      case None => None
      case Some(p) => Some(([s[0]] + p.0, p.1))
  }

  function ParseSubst(expr: string): Option<Subst>
  {
    if |expr| < 2 || expr[..2] != "s/" then None
    else
      match ReadField(expr[2..])
      case None => None
      case Some(p) =>
        match ReadField(p.1)
        case None => None
        case Some(q) => Some(Subst(p.0, q.0, q.1))
  }

  lemma {:induction false} ReadPlainField(t: string, tail: string)
    requires '/' !in t && '\\' !in t
    ensures ReadField(t + "/" + tail) == Some((t, tail))
  {
    if t == [] {
      assert t + "/" + tail == ['/'] + tail;
    } else {
      ReadPlainField(t[1..], tail);
      assert (t + "/" + tail)[1..] == t[1..] + "/" + tail;
      assert [t[0]] + t[1..] == t;
    }
  }

  /** `t` holds at most one `/`. */
  predicate AtMostOneSlash(t: string)
  {
    forall i, j | 0 <= i < j < |t| :: !(t[i] == '/' && t[j] == '/')
  }

  lemma AtMostOneSlashTail(t: string)
    requires |t| > 0 && AtMostOneSlash(t)
    ensures AtMostOneSlash(t[1..])
    ensures t[0] == '/' ==> '/' !in t[1..]
  {
    var t' := t[1..];
    forall i, j | 0 <= i < j < |t'|
      ensures !(t'[i] == '/' && t'[j] == '/')
    {
      assert t'[i] == t[i + 1] && t'[j] == t[j + 1];
    }
    if t[0] == '/' {
      forall j | 0 <= j < |t'|
        ensures t'[j] != '/'
      {
        assert t'[j] == t[j + 1];
      }
    }
  }

  lemma {:induction false} ReadEscapedField(t: string, tail: string)
    requires '\\' !in t && AtMostOneSlash(t)
    ensures ReadField(EscapeFirstSlash(t) + "/" + tail) == Some((t, tail))
  {
    if t == [] {
      assert EscapeFirstSlash(t) + "/" + tail == ['/'] + tail;
    } else {
      var t' := t[1..];
      AtMostOneSlashTail(t);
      assert t[0] != '\\' && '\\' !in t';
      if t[0] == '/' {
        ReadEscapedHead(t', tail);
      } else {
        ReadEscapedField(t', tail);
        ReadPlainHead(t[0], EscapeFirstSlash(t'), tail, t');
        assert EscapeFirstSlash(t) == [t[0]] + EscapeFirstSlash(t');
        assert EscapeFirstSlash(t) + "/" + tail == [t[0]] + EscapeFirstSlash(t') + "/" + tail;
      }
      assert [t[0]] + t' == t;
    }
  }

  lemma ReadEscapedHead(t': string, tail: string)
    requires '/' !in t' && '\\' !in t'
    ensures ReadField(EscapeFirstSlash(['/'] + t') + "/" + tail) == Some((['/'] + t', tail))
  {
    var t := ['/'] + t';
    assert t[1..] == t';
    assert EscapeFirstSlash(t) == "\\/" + t';
    var s := "\\/" + (t' + "/" + tail);
    assert EscapeFirstSlash(t) + "/" + tail == s;
    assert s[2..] == t' + "/" + tail;
    ReadPlainField(t', tail);
  }

  lemma ReadPlainHead(c: char, e: string, tail: string, t': string)
    requires c != '/' && c != '\\'
    requires ReadField(e + "/" + tail) == Some((t', tail))
    ensures ReadField([c] + e + "/" + tail) == Some(([c] + t', tail))
  {
    var s := [c] + e + "/" + tail;
    assert s[1..] == e + "/" + tail;
  }

  /** The escaping is enough for a subnet text: when it has no backslash and
      at most one `/` (as `a.b.c.d/n` has), `sed` reads back the placeholder
      as the pattern, exactly that text as the replacement, and `g`. */
  lemma SedExprRoundTrip(subnetText: string)
    requires '\\' !in subnetText
    requires AtMostOneSlash(subnetText)
    ensures ParseSubst(SedExpr(subnetText)) == Some(Subst(Placeholder, subnetText, "g"))
  {
    var e := SedExpr(subnetText);
    var body := EscapeFirstSlash(subnetText) + "/" + "g";
    assert e[..2] == "s/";
    assert e[2..] == Placeholder + "/" + body;
    ReadPlainField(Placeholder, body);
    ReadEscapedField(subnetText, "g");
  }
}
