/**
 * The `Cookie` header parser both sync handlers run before anything else: the header is split
 * on `;`, each part is cut at its first `=`, name and value are trimmed, and the value is
 * URI-decoded into a map in which a later part overwrites an earlier one with the same name.
 */
module Cookies {
  import opened Base
  import opened Text

  /** `decodeURIComponent`: the decoded text, or `None` where it throws a URIError. */
  type UriDecoder = string -> Option<string>

  /** The name and the still-encoded value one part of the header contributes, if any. */
  function Entry(part: string): (e: Option<(string, string)>)
    ensures '=' !in part ==> e.None?
    ensures e.Some? ==> e.value.0 != [] && '=' !in e.value.0
  {
    var i := IndexOf(part, '=');
    if i < 0 then None
    else
      var name := Trim(part[..i]);
      TrimOmits(part[..i], '=');
      if name == [] then None else Some((name, Trim(part[i + 1..])))
  }

  /**
   * A part is cut at its first `=`: it gives an entry exactly when the trimmed text before that
   * `=` is not empty, and the entry is that name with the trimmed text after it.
   */
  lemma EntryAt(part: string, i: nat)
    requires i < |part| && part[i] == '=' && '=' !in part[..i]
    ensures Entry(part).Some? <==> Trim(part[..i]) != []
    ensures Entry(part).Some? ==> Entry(part).value == (Trim(part[..i]), Trim(part[i + 1..]))
  {
    IndexOfAt(part, '=', i);
  }

  lemma TrimOmits(s: string, c: char)
    requires c !in s
    ensures c !in Trim(s)
  {
    var t := TrimStart(s);
    assert t == s[|s| - |t|..];
    assert c !in t;
    assert TrimEnd(t) == t[..|TrimEnd(t)|];
  }

  /** What each part of the header contributes, in header order. */
  function Entries(parts: seq<string>): seq<Option<(string, string)>>
  {
    seq(|parts|, j requires 0 <= j < |parts| => Entry(parts[j]))
  }

  /**
   * The cookie map the entries produce, folded from the first to the last; `None` when
   * decoding one of the values throws, which ends the handler with an uncaught exception.
   */
  function Fold(es: seq<Option<(string, string)>>, decode: UriDecoder): Option<map<string, string>>
  {
    if es == [] then Some(map[])
    else
      match Fold(es[..|es| - 1], decode)
      case None => None
      case Some(m) =>
        match es[|es| - 1]
        case None => Some(m)
        case Some(kv) =>
          match decode(kv.1)
          case None => None
          case Some(v) => Some(m[kv.0 := v])
  }

  /** The cookies `header` yields, or `None` when the parse throws. */
  function Jar(header: string, decode: UriDecoder): Option<map<string, string>>
  {
    Fold(Entries(Split(header, ';')), decode)
  }

  /** The parse of a header throws exactly when some part carries a name whose value cannot be decoded. */
  lemma JarThrowsIff(header: string, decode: UriDecoder)
    ensures Jar(header, decode).None? <==>
      exists j :: 0 <= j < |Split(header, ';')| && Undecodable(Split(header, ';')[j], decode)
  {
    var parts := Split(header, ';');
    var es := Entries(parts);
    assert Jar(header, decode) == Fold(es, decode);
    FoldThrowsIff(es, decode);
    if Jar(header, decode).None? {
      var j :| 0 <= j < |es| && es[j].Some? && decode(es[j].value.1).None?;
      assert Undecodable(parts[j], decode);
      assert Undecodable(Split(header, ';')[j], decode);
    } else {
      forall j | 0 <= j < |parts| ensures !Undecodable(parts[j], decode) {
        assert es[j] == Entry(parts[j]);
      }
      assert !exists j :: 0 <= j < |parts| && Undecodable(parts[j], decode);
    }
  }

  /** A part carries a name whose value `decodeURIComponent` rejects. */
  predicate Undecodable(part: string, decode: UriDecoder)
  {
    Entry(part).Some? && decode(Entry(part).value.1).None?
  }

  /** A part carries the name `name`. */
  predicate Names(part: string, name: string)
  {
    Entry(part).Some? && Entry(part).value.0 == name
  }

  /** When the parse succeeds, its names are exactly the names the parts carry. */
  lemma JarNames(header: string, decode: UriDecoder, name: string)
    requires Jar(header, decode).Some?
    ensures name in Jar(header, decode).value <==>
      exists j :: 0 <= j < |Split(header, ';')| && Names(Split(header, ';')[j], name)
  {
    var parts := Split(header, ';');
    var es := Entries(parts);
    assert Jar(header, decode) == Fold(es, decode);
    FoldNames(es, decode, name);
    if name in Jar(header, decode).value {
      var j :| 0 <= j < |es| && es[j].Some? && es[j].value.0 == name;
      assert Names(parts[j], name);
      assert Names(Split(header, ';')[j], name);
    } else {
      forall j | 0 <= j < |parts| ensures !Names(parts[j], name) {
        assert es[j] == Entry(parts[j]);
      }
      assert !exists j :: 0 <= j < |parts| && Names(parts[j], name);
    }
  }

  /** The loop of the handlers' cookie parsing (the `forEach` that fills `cookies`). */
  method ParseCookies(header: string, decode: UriDecoder) returns (cookies: Option<map<string, string>>)
    ensures cookies == Jar(header, decode)
  {
    var parts := Split(header, ';');
    ghost var es := Entries(parts);
    var jar: map<string, string> := map[];
    var i := 0;
    while i < |parts|
      invariant 0 <= i <= |parts|
      invariant Fold(es[..i], decode) == Some(jar)
    {
      FoldStep(es, decode, i);
      var e := Entry(parts[i]);
      if e.Some? {
        var v := decode(e.value.1);
        if v.None? {
          FoldThrowsForever(es, decode, i + 1);
          return None;
        }
        jar := jar[e.value.0 := v.value];
      }
      i := i + 1;
    }
    assert es[..|parts|] == es;
    return Some(jar);
  }

  /** One more entry folded into the map: it throws, leaves the map as it is, or sets its name. */
  lemma FoldStep(es: seq<Option<(string, string)>>, decode: UriDecoder, i: nat)
    requires i < |es|
    ensures Fold(es[..i + 1], decode) ==
      if Fold(es[..i], decode).None? then None
      else if es[i].None? then Fold(es[..i], decode)
      else if decode(es[i].value.1).None? then None
      else Some(Fold(es[..i], decode).value[es[i].value.0 := decode(es[i].value.1).value])
  {
    assert es[..i + 1][..i] == es[..i];
  }

  /** Once a decode has thrown, no later part can bring the parse back. */
  lemma {:induction false} FoldThrowsForever(es: seq<Option<(string, string)>>, decode: UriDecoder, n: nat)
    requires n <= |es|
    requires Fold(es[..n], decode).None?
    ensures Fold(es, decode).None?
    decreases |es| - n
  {
    if n < |es| {
      assert es[..n + 1][..n] == es[..n];
      FoldThrowsForever(es, decode, n + 1);
    } else {
      assert es[..n] == es;
    }
  }

  /** Parsing throws exactly when some part carries a name whose value cannot be decoded. */
  lemma {:induction false} FoldThrowsIff(es: seq<Option<(string, string)>>, decode: UriDecoder)
    ensures Fold(es, decode).None? <==>
      exists j :: 0 <= j < |es| && es[j].Some? && decode(es[j].value.1).None?
  {
    if es != [] {
      var init := es[..|es| - 1];
      FoldThrowsIff(init, decode);
      assert forall j :: 0 <= j < |init| ==> init[j] == es[j];
    }
  }

  /** The names in the map are exactly the names some part carries. */
  lemma {:induction false} FoldNames(es: seq<Option<(string, string)>>, decode: UriDecoder, name: string)
    requires Fold(es, decode).Some?
    ensures name in Fold(es, decode).value <==>
      exists j :: 0 <= j < |es| && es[j].Some? && es[j].value.0 == name
  {
    if es != [] {
      var init := es[..|es| - 1];
      FoldNames(init, decode, name);
      assert forall j :: 0 <= j < |init| ==> init[j] == es[j];
    }
  }

  /** A name's value is the decoded value of the LAST part that carries that name. */
  lemma {:induction false} FoldLastWins(es: seq<Option<(string, string)>>, decode: UriDecoder, j: nat)
    requires Fold(es, decode).Some?
    requires j < |es| && es[j].Some?
    requires forall i :: j < i < |es| && es[i].Some? ==> es[i].value.0 != es[j].value.0
    ensures es[j].value.0 in Fold(es, decode).value
    ensures decode(es[j].value.1).Some?
    ensures Fold(es, decode).value[es[j].value.0] == decode(es[j].value.1).value
  {
    var last := |es| - 1;
    var init := es[..last];
    assert forall i :: 0 <= i < |init| ==> init[i] == es[i];
    if j < last {
      FoldLastWins(init, decode, j);
    }
  }
}
