/**
 * The typing-module generator (yaaf/gen_services.py): every `_service.py` below `api` becomes
 * either an import of its `Service` class under a `<CamelCase>Service` alias (static routes) or
 * a `Protocol` stub (dynamic routes), and all of them are listed in `__all__`.
 */
module GenServices {
  import opened Text
  import opened Pattern
  import opened StableSort
  import opened Aliases

  // ---------------------------------------------------------------------------------------------
  // Aliases

  /** `sub[:1].upper() + sub[1:] for sub in subs if sub` */
  function CapitalizedPieces(subs: seq<string>): seq<string>
  {
    if subs == [] then [] else (if subs[0] != "" then [Capitalize(subs[0])] else []) + CapitalizedPieces(subs[1..])
  }

  /** `_camel_case`: each part split at '_', every non-empty piece capitalised, all concatenated. */
  function CamelCase(parts: seq<string>): string
  {
    if parts == [] then ""
    else (if parts[0] != "" then Concat(CapitalizedPieces(Split(parts[0], '_'))) else "") + CamelCase(parts[1..])
  }

  /** `_service_alias` of the generator: the camel case of the identifier segments, then "Service". */
  function GenServiceAlias(parts: seq<string>): (r: string)
    ensures EndsWith(r, "Service")
  {
    var base := CamelCase(IdentifierParts(parts));
    var b := if base == "" then "Route" else base;
    assert (b + "Service")[|b + "Service"| - 7..] == "Service";
    b + "Service"
  }

  lemma UpperNotUnderscore(c: char)
    ensures UpperChar(c) == '_' ==> c == '_'
  {
  }

  lemma WithoutAppend(a: string, b: string, d: char)
    ensures Without(a + b, d) == Without(a, d) + Without(b, d)
  {
    if a == [] {
      assert a + b == b;
    } else {
      assert (a + b)[0] == a[0] && (a + b)[1..] == a[1..] + b;
      WithoutAppend(a[1..], b, d);
    }
  }

  /** The capitalised pieces, concatenated, spell the pieces up to case and add no '_'. */
  lemma {:induction false} CapitalizedPiecesSpelling(subs: seq<string>)
    requires forall p :: p in subs ==> '_' !in p
    ensures Lower(Concat(CapitalizedPieces(subs))) == Lower(Concat(subs))
    ensures '_' !in Concat(CapitalizedPieces(subs))
  {
    if subs != [] {
      var head := if subs[0] != "" then [Capitalize(subs[0])] else [];
      assert forall p :: p in subs[1..] ==> p in subs;
      CapitalizedPiecesSpelling(subs[1..]);
      ConcatAppend(head, CapitalizedPieces(subs[1..]));
      assert Concat(head) == (if subs[0] != "" then Capitalize(subs[0]) else "");
      LowerAppend(Concat(head), Concat(CapitalizedPieces(subs[1..])));
      LowerAppend(subs[0], Concat(subs[1..]));
      assert subs[0] in subs;
      CapitalizeLower(subs[0]);
      if subs[0] != "" {
        var c := Capitalize(subs[0]);
        forall i | 0 <= i < |c| ensures c[i] != '_' {
          if i == 0 {
            UpperNotUnderscore(subs[0][0]);
          }
        }
      }
    }
  }

  /**
   * The camel case is the parts run together with every '_' dropped, with only the case of some
   * letters changed, and it holds no '_'.
   */
  lemma {:induction false} CamelCaseSpelling(parts: seq<string>)
    ensures '_' !in CamelCase(parts)
    ensures Lower(CamelCase(parts)) == Lower(Without(Concat(parts), '_'))
  {
    if parts != [] {
      CamelCaseSpelling(parts[1..]);
      var head := if parts[0] != "" then Concat(CapitalizedPieces(Split(parts[0], '_'))) else "";
      SplitPieces(parts[0], '_');
      CapitalizedPiecesSpelling(Split(parts[0], '_'));
      assert Lower(head) == Lower(Without(parts[0], '_'));
      LowerAppend(head, CamelCase(parts[1..]));
      WithoutAppend(parts[0], Concat(parts[1..]), '_');
      LowerAppend(Without(parts[0], '_'), Without(Concat(parts[1..]), '_'));
    }
  }

  /** The generator's alias holds no '_'. */
  lemma GenServiceAliasNoUnderscore(parts: seq<string>)
    ensures '_' !in GenServiceAlias(parts)
  {
    var base := CamelCase(IdentifierParts(parts));
    CamelCaseNoUnderscore(IdentifierParts(parts));
    SuffixedNoUnderscore(if base == "" then "Route" else base);
  }

  lemma CamelCaseNoUnderscore(parts: seq<string>)
    ensures '_' !in CamelCase(parts)
  {
    CamelCaseSpelling(parts);
  }

  /** "Service" (and the fallback "Route") hold no '_', so the suffix adds none. */
  lemma SuffixedNoUnderscore(b: string)
    requires '_' !in b || b == "Route"
    ensures '_' !in b + "Service"
  {
    var suffix := "Service";
    assert forall i :: 0 <= i < |suffix| ==> suffix[i] != '_';
    if b == "Route" {
      assert forall i :: 0 <= i < |b| ==> b[i] != '_';
    }
    NotInConcat('_', b, suffix);
  }

  /** A character in neither half is not in the concatenation. */
  lemma NotInConcat(c: char, a: string, b: string)
    requires c !in a && c !in b
    ensures c !in a + b
  {
    forall i | 0 <= i < |a + b| ensures (a + b)[i] != c {
      if i < |a| { assert (a + b)[i] == a[i]; } else { assert (a + b)[i] == b[i - |a|]; }
    }
  }

  /**
   * Before its "Service" suffix, the generator's alias spells the identifier segments without
   * their underscores, up to case.
   */
  lemma GenServiceAliasSpelling(parts: seq<string>)
    requires Without(Concat(IdentifierParts(parts)), '_') != ""
    ensures var r := GenServiceAlias(parts);
      Lower(r[..|r| - 7]) == Lower(Without(Concat(IdentifierParts(parts)), '_'))
  {
    var safe := IdentifierParts(parts);
    CamelCaseSpelling(safe);
    var base := CamelCase(safe);
    assert |Lower(base)| == |base|;
    var r := GenServiceAlias(parts);
    assert r == base + "Service";
    assert r[..|r| - 7] == base;
  }

  /** When the identifier segments hold nothing but underscores, the alias is "RouteService". */
  lemma GenServiceAliasFallback(parts: seq<string>)
    requires Without(Concat(IdentifierParts(parts)), '_') == ""
    ensures GenServiceAlias(parts) == "RouteService"
  {
    CamelCaseEmpty(IdentifierParts(parts));
    assert GenServiceAlias(parts) == "Route" + "Service";
  }

  /** Segments that are all underscores camel-case to nothing. */
  lemma CamelCaseEmpty(safe: seq<string>)
    requires Without(Concat(safe), '_') == ""
    ensures CamelCase(safe) == ""
  {
    CamelCaseSpelling(safe);
    assert |Lower(CamelCase(safe))| == |CamelCase(safe)|;
  }

  /** The identifier segments inherit the absence of '_' from the segments. */
  lemma {:induction false} IdentifierPartsNoUnderscore(parts: seq<string>)
    requires forall i :: 0 <= i < |parts| ==> '_' !in parts[i]
    ensures forall p :: p in IdentifierParts(parts) ==> '_' !in p
  {
    if parts != [] {
      assert forall i :: 0 <= i < |parts[1..]| ==> parts[1..][i] == parts[i + 1];
      IdentifierPartsNoUnderscore(parts[1..]);
    }
  }

  /** On non-empty parts without '_', the camel case is plain capitalise-and-join. */
  lemma {:induction false} CamelCaseOfPlainParts(parts: seq<string>)
    requires forall i :: 0 <= i < |parts| ==> parts[i] != "" && '_' !in parts[i]
    ensures CamelCase(parts) == CapitalizedConcat(parts)
  {
    if parts != [] {
      CamelCaseOfPlainParts(parts[1..]);
      PlainPartPieces(parts[0]);
      ConcatSingle(Capitalize(parts[0]));
      CamelCaseStep(parts);
    }
  }

  lemma CamelCaseStep(parts: seq<string>)
    requires parts != [] && parts[0] != ""
    ensures CamelCase(parts) == Concat(CapitalizedPieces(Split(parts[0], '_'))) + CamelCase(parts[1..])
  {
  }

  /** A non-empty part without '_' is one piece, capitalised. */
  lemma PlainPartPieces(p: string)
    requires p != "" && '_' !in p
    ensures CapitalizedPieces(Split(p, '_')) == [Capitalize(p)]
  {
    SplitPlain(p, '_');
    assert CapitalizedPieces([p]) == [Capitalize(p)] + CapitalizedPieces([]);
  }

  /** The generator and the loader give a route the same alias when no segment holds '_'. */
  lemma AliasesAgree(parts: seq<string>)
    requires forall i :: 0 <= i < |parts| ==> '_' !in parts[i]
    ensures GenServiceAlias(parts) == ServiceAlias(parts)
  {
    var safe := IdentifierParts(parts);
    IdentifierPartsNoUnderscore(parts);
    assert forall i :: 0 <= i < |safe| ==> safe[i] in safe;
    CamelCaseOfPlainParts(safe);
  }

  /**
   * A segment with an inner '_' is where the two disagree: the generator writes `foo_bar_baz`
   * as "FooBarBazService", the loader as "Foo_bar_bazService".
   */
  lemma AliasesDisagree(s: string)
    requires s == "foo_bar_baz"
    ensures GenServiceAlias([s]) == "FooBarBazService"
    ensures ServiceAlias([s]) == "Foo_bar_bazService"
  {
    FooBarBazParts(s);
    GenFooBarBaz(s);
    GenAliasFooBarBaz(s);
    LoaderFooBarBaz(s);
  }

  /** The generator runs the pieces of `foo_bar_baz` together. */
  lemma GenAliasFooBarBaz(s: string)
    requires IdentifierParts([s]) == [s] && CamelCase([s]) == "FooBarBaz"
    ensures GenServiceAlias([s]) == "FooBarBazService"
  {
    var b := CamelCase([s]);
    assert GenServiceAlias([s]) == b + "Service";
  }

  /** The one segment `foo_bar_baz` is an identifier and is kept as it is. */
  lemma FooBarBazParts(s: string)
    requires s == "foo_bar_baz"
    ensures IsIdentifier(StripDynamic(s)) && IdentifierParts([s]) == [s]
  {
    assert IsIdentifier(s) && StripDynamic(s) == s;
    assert IdentifierParts([s]) == [s] + IdentifierParts([]);
  }

  lemma CapitalizeFooBarBaz(s: string)
    requires s == "foo_bar_baz"
    ensures Capitalize(s) == "Foo_bar_baz"
  {
    var tail := s[1..];
    assert Capitalize(s) == ['F'] + tail;
    assert "Foo_bar_baz" == ['F'] + tail;
  }

  /** The loader capitalises only the first letter of `foo_bar_baz`. */
  lemma LoaderFooBarBaz(s: string)
    requires s == "foo_bar_baz" && IsIdentifier(StripDynamic(s)) && IdentifierParts([s]) == [s]
    ensures ServiceAlias([s]) == "Foo_bar_bazService"
  {
    var cap := Capitalize(s);
    CapitalizeFooBarBaz(s);
    assert [s][0] == s;
    assert CapitalizedConcat([s]) == cap + CapitalizedConcat([]);
    assert ServiceAlias([s]) == cap + "Service";
  }

  lemma GenFooBarBaz(s: string)
    requires s == "foo_bar_baz"
    ensures CamelCase([s]) == "FooBarBaz"
  {
    FooBarBazPieces(s);
    var caps := CapitalizedPieces(Split(s, '_'));
    FooBarBazCaps(["foo", "bar", "baz"]);
    ConcatThree("Foo", "Bar", "Baz");
    CamelCaseStep([s]);
    assert CamelCase([s]) == Concat(caps) + CamelCase([]);
  }

  lemma FooBarBazPieces(s: string)
    requires s == "foo_bar_baz"
    ensures Split(s, '_') == ["foo", "bar", "baz"]
  {
    var foo, bar, baz := s[..3], s[4..7], s[8..];
    assert foo == "foo" && bar == "bar" && baz == "baz";
    assert s == foo + ['_'] + (bar + ['_'] + baz);
    SplitAfter(foo, '_', bar + ['_'] + baz);
    SplitAfter(bar, '_', baz);
    SplitPlain(baz, '_');
  }

  lemma FooBarBazCaps(pieces: seq<string>)
    requires pieces == ["foo", "bar", "baz"]
    ensures CapitalizedPieces(pieces) == ["Foo", "Bar", "Baz"]
  {
    var foo, bar, baz := pieces[0], pieces[1], pieces[2];
    assert pieces == [foo] + ([bar] + [baz]);
    CapitalizedPiecesCons(foo, [bar] + [baz]);
    CapitalizedPiecesCons(bar, [baz]);
    assert CapitalizedPieces([baz]) == [Capitalize(baz)] + CapitalizedPieces([]);
    assert Capitalize(foo) == "Foo" && Capitalize(bar) == "Bar" && Capitalize(baz) == "Baz";
  }

  lemma ConcatThree(a: string, b: string, c: string)
    ensures Concat([a, b, c]) == a + b + c
  {
    assert [a, b, c] == [a] + ([b] + [c]);
    ConcatAppend([a], [b] + [c]);
    ConcatAppend([b], [c]);
    ConcatSingle(a);
    ConcatSingle(b);
    ConcatSingle(c);
  }

  lemma CapitalizedPiecesCons(x: string, rest: seq<string>)
    requires x != ""
    ensures CapitalizedPieces([x] + rest) == [Capitalize(x)] + CapitalizedPieces(rest)
  {
    assert ([x] + rest)[1..] == rest;
  }

  // ---------------------------------------------------------------------------------------------
  // Which `_service.py` files become what

  /** One import: the alias and the dotted module path of the route's `_service`. */
  datatype Entry = Entry(alias: string, modulePath: string)

  /** What the generator makes of one `_service.py` path. */
  datatype FileKind =
    | NotUnderApi               // no "api" segment in the path: skipped
    | DynamicRoute(alias: string) // some segment is `[name]`: a Protocol stub
    | NotIdentifier             // a segment is not an identifier: skipped
    | StaticRoute(entry: Entry) // imported under its alias

  /** `root.parts[api_index + 1 : -1]`: the directories between the first "api" and the file. */
  function GenRouteParts(parts: seq<string>): (r: seq<string>)
    requires "api" in parts
    ensures |r| < |parts|
  {
    var k := IndexOf(parts, "api");
    if k + 1 <= |parts| - 1 then parts[k + 1..|parts| - 1] else []
  }

  predicate HasDynamicPart(rp: seq<string>)
  {
    exists i :: 0 <= i < |rp| && IsDynamic(rp[i])
  }

  predicate AllIdentifiers(rp: seq<string>)
  {
    forall i :: 0 <= i < |rp| ==> IsIdentifier(rp[i])
  }

  /** `<base>.api.<segments>._service` */
  function ModulePath(baseName: string, rp: seq<string>): string
  {
    Join([baseName, "api"] + rp + ["_service"], ".")
  }

  /** The body of the generator's loop for one file path (its `parts`). */
  function Classify(baseName: string, parts: seq<string>): (k: FileKind)
    ensures k.DynamicRoute? <==> "api" in parts && HasDynamicPart(GenRouteParts(parts))
    ensures k.StaticRoute? ==> "api" in parts && AllIdentifiers(GenRouteParts(parts))
  {
    if "api" !in parts then NotUnderApi
    else
      var rp := GenRouteParts(parts);
      if HasDynamicPart(rp) then DynamicRoute(GenServiceAlias(rp))
      else if !AllIdentifiers(rp) then NotIdentifier
      else StaticRoute(Entry(GenServiceAlias(rp), ModulePath(baseName, rp)))
  }

  /** A dynamic segment is never an identifier, so a static route has none. */
  lemma StaticHasNoDynamicPart(baseName: string, parts: seq<string>)
    requires Classify(baseName, parts).StaticRoute?
    ensures !HasDynamicPart(GenRouteParts(parts))
    ensures Classify(baseName, parts).entry.modulePath == ModulePath(baseName, GenRouteParts(parts))
  {
  }

  /** The two lists the loop fills: `aliases` (unsorted) and `dynamic_aliases`. */
  datatype Gathered = Gathered(entries: seq<Entry>, dynamic: seq<string>)

  function Gather(baseName: string, files: seq<seq<string>>): Gathered
  {
    if files == [] then Gathered([], [])
    else
      var g := Gather(baseName, files[..|files| - 1]);
      match Classify(baseName, files[|files| - 1])
      case StaticRoute(e) => Gathered(g.entries + [e], g.dynamic)
      case DynamicRoute(a) => Gathered(g.entries, g.dynamic + [a])
      case _ => g
  }

  predicate FromStaticFile(baseName: string, files: seq<seq<string>>, e: Entry)
  {
    exists f :: f in files && Classify(baseName, f) == StaticRoute(e)
  }

  predicate FromDynamicFile(baseName: string, files: seq<seq<string>>, a: string)
  {
    exists f :: f in files && Classify(baseName, f) == DynamicRoute(a)
  }

  /**
   * Every import entry comes from a static route and every stub from a dynamic one, and every
   * static (dynamic) route file contributes its entry (alias).
   */
  lemma {:induction false} GatherCorrect(baseName: string, files: seq<seq<string>>)
    ensures forall e :: e in Gather(baseName, files).entries ==> FromStaticFile(baseName, files, e)
    ensures forall a :: a in Gather(baseName, files).dynamic ==> FromDynamicFile(baseName, files, a)
    ensures forall f :: f in files && Classify(baseName, f).StaticRoute? ==>
      Classify(baseName, f).entry in Gather(baseName, files).entries
    ensures forall f :: f in files && Classify(baseName, f).DynamicRoute? ==>
      Classify(baseName, f).alias in Gather(baseName, files).dynamic
  {
    GatherSound(baseName, files);
    GatherComplete(baseName, files);
  }

  lemma GatherSound(baseName: string, files: seq<seq<string>>)
    ensures forall e :: e in Gather(baseName, files).entries ==> FromStaticFile(baseName, files, e)
    ensures forall a :: a in Gather(baseName, files).dynamic ==> FromDynamicFile(baseName, files, a)
  {
    GatherEntriesSound(baseName, files);
    GatherDynamicSound(baseName, files);
  }

  lemma {:induction false} GatherEntriesSound(baseName: string, files: seq<seq<string>>)
    ensures forall e :: e in Gather(baseName, files).entries ==> FromStaticFile(baseName, files, e)
  {
    if files != [] {
      var init, last := files[..|files| - 1], files[|files| - 1];
      GatherEntriesSound(baseName, init);
      assert files == init + [last];
      var g := Gather(baseName, init);
      forall e | e in Gather(baseName, files).entries
        ensures FromStaticFile(baseName, files, e)
      {
        if e in g.entries {
          var f :| f in init && Classify(baseName, f) == StaticRoute(e);
          assert f in files;
        } else {
          assert Classify(baseName, last) == StaticRoute(e);
          assert last in files;
        }
      }
    }
  }

  lemma {:induction false} GatherDynamicSound(baseName: string, files: seq<seq<string>>)
    ensures forall a :: a in Gather(baseName, files).dynamic ==> FromDynamicFile(baseName, files, a)
  {
    if files != [] {
      var init, last := files[..|files| - 1], files[|files| - 1];
      GatherDynamicSound(baseName, init);
      assert files == init + [last];
      var g := Gather(baseName, init);
      forall a | a in Gather(baseName, files).dynamic
        ensures FromDynamicFile(baseName, files, a)
      {
        if a in g.dynamic {
          var f :| f in init && Classify(baseName, f) == DynamicRoute(a);
          assert f in files;
        } else {
          assert Classify(baseName, last) == DynamicRoute(a);
          assert last in files;
        }
      }
    }
  }

  lemma {:induction false} GatherComplete(baseName: string, files: seq<seq<string>>)
    ensures forall f :: f in files && Classify(baseName, f).StaticRoute? ==>
      Classify(baseName, f).entry in Gather(baseName, files).entries
    ensures forall f :: f in files && Classify(baseName, f).DynamicRoute? ==>
      Classify(baseName, f).alias in Gather(baseName, files).dynamic
  {
    if files != [] {
      var init, last := files[..|files| - 1], files[|files| - 1];
      GatherComplete(baseName, init);
      assert files == init + [last];
      forall f | f in files ensures f in init || f == last {
      }
    }
  }

  /** `aliases` is empty exactly when no file is a static route. */
  lemma NoEntriesIff(baseName: string, files: seq<seq<string>>)
    ensures Gather(baseName, files).entries == [] <==>
      forall f :: f in files ==> !Classify(baseName, f).StaticRoute?
  {
    GatherCorrect(baseName, files);
    var es := Gather(baseName, files).entries;
    if es != [] {
      assert es[0] in es;
    }
  }

  // ---------------------------------------------------------------------------------------------
  // Sorting by the lower-cased alias

  /** Python's `<` on strings: code point by code point, a proper prefix first. */
  predicate LexLess(a: string, b: string)
  {
    if a == [] then b != []
    else if b == [] then false
    else a[0] < b[0] || (a[0] == b[0] && LexLess(a[1..], b[1..]))
  }

  lemma {:induction false} LexLessIrreflexive(a: string)
    ensures !LexLess(a, a)
  {
    if a != [] {
      LexLessIrreflexive(a[1..]);
    }
  }

  lemma {:induction false} LexLessTransitive(a: string, b: string, c: string)
    requires LexLess(a, b) && LexLess(b, c)
    ensures LexLess(a, c)
  {
    if a != [] && b != [] && c != [] && a[0] == b[0] && b[0] == c[0] {
      LexLessTransitive(a[1..], b[1..], c[1..]);
    }
  }

  lemma LexLessStrict()
    ensures StrictOrder(LexLess)
  {
    forall a ensures !LexLess(a, a) {
      LexLessIrreflexive(a);
    }
    forall a, b, c | LexLess(a, b) && LexLess(b, c) ensures LexLess(a, c) {
      LexLessTransitive(a, b, c);
    }
  }

  /** `item[0].lower()` */
  function AliasKey(e: Entry): string
  {
    Lower(e.alias)
  }

  /** `aliases.sort(key=lambda item: item[0].lower())` */
  function SortedEntries(entries: seq<Entry>): seq<Entry>
  {
    SortBy(entries, AliasKey, LexLess)
  }

  /**
   * The imports are in case-insensitive alias order, they are exactly the gathered entries, and
   * entries whose aliases differ only in case keep their discovery order.
   */
  lemma SortedEntriesCorrect(entries: seq<Entry>)
    ensures Ordered(SortedEntries(entries), AliasKey, LexLess)
    ensures multiset(SortedEntries(entries)) == multiset(entries)
    ensures forall k :: WithKey(SortedEntries(entries), AliasKey, k) == WithKey(entries, AliasKey, k)
  {
    LexLessStrict();
    SortByCorrect(entries, AliasKey, LexLess);
  }

  // ---------------------------------------------------------------------------------------------
  // The generated text

  /** `HEADER`: the module docstring and the typing imports, ending in a blank line. */
  const Header: string :=
    "\"\"\"" + "Generated service type aliases for consumers.\n\nDo not edit by hand. Regenerate via `yaaf` CLI.\n\"\"\"\n\nfrom __future__ import annotations\n\nfrom typing import Any, Protocol, TYPE_CHECKING" + "\n\n"

  const DynamicNote: string := "\n" + "# Dynamic routes use Protocol stubs (invalid import paths)" + ".\n"

  function ImportLine(e: Entry): string
  {
    "    from " + e.modulePath + " import Service as " + e.alias + "\n"
  }

  function StubLine(e: Entry): string
  {
    "    class " + e.alias + ":\n        ...\n"
  }

  function ProtocolLine(alias: string): string
  {
    "\nclass " + alias + "(Protocol):\n    ...\n"
  }

  function Quoted(alias: string): string
  {
    "'" + alias + "'"
  }

  function Names(entries: seq<Entry>): seq<string>
  {
    seq(|entries|, i requires 0 <= i < |entries| => entries[i].alias)
  }

  function QuotedAll(aliases: seq<string>): seq<string>
  {
    seq(|aliases|, i requires 0 <= i < |aliases| => Quoted(aliases[i]))
  }

  /** `\n__all__ = ['A', 'B', ...]\n`: the static aliases in import order, then the dynamic ones. */
  function ExportsLine(entries: seq<Entry>, dynamic: seq<string>): string
  {
    "\n__all__ = [" + Join(QuotedAll(Names(entries) + dynamic), ", ") + "]\n"
  }

  function Imports(entries: seq<Entry>): seq<string>
  {
    seq(|entries|, i requires 0 <= i < |entries| => ImportLine(entries[i]))
  }

  function Stubs(entries: seq<Entry>): seq<string>
  {
    seq(|entries|, i requires 0 <= i < |entries| => StubLine(entries[i]))
  }

  function Protocols(dynamic: seq<string>): seq<string>
  {
    seq(|dynamic|, i requires 0 <= i < |dynamic| => ProtocolLine(dynamic[i]))
  }

  /** The body of `if TYPE_CHECKING:`: the imports, or `pass` when there are none. */
  function TypeCheckingBody(entries: seq<Entry>): seq<string>
  {
    if entries != [] then Imports(entries) else ["    pass\n"]
  }

  /** `__all__` and, when there are dynamic routes, the closing note. */
  function Epilogue(entries: seq<Entry>, dynamic: seq<string>): seq<string>
  {
    [ExportsLine(entries, dynamic)] + (if dynamic != [] then [DynamicNote] else [])
  }

  /** The chunks `lines` holds once the loop is done, for sorted entries, as the source writes them. */
  function ModuleLines(entries: seq<Entry>, dynamic: seq<string>): seq<string>
  {
    [Header, "if TYPE_CHECKING:\n"] + TypeCheckingBody(entries) + ["else:\n"]
    + (Stubs(entries) + (Protocols(dynamic) + Epilogue(entries, dynamic)))
  }

  /** The chunks written for a consumers tree (`baseExists`) whose `_service.py` paths are `files`. */
  function Generated(baseExists: bool, baseName: string, files: seq<seq<string>>): seq<string>
  {
    if !baseExists then [Header, "\n__all__ = []\n"]
    else
      var g := Gather(baseName, files);
      ModuleLines(SortedEntries(g.entries), g.dynamic)
  }

  /** `generate_services`: the text written to the output file. */
  method GenerateServices(baseExists: bool, baseName: string, files: seq<seq<string>>) returns (text: string)
    ensures text == Concat(Generated(baseExists, baseName, files))
  {
    if !baseExists {
      text := Header + "\n__all__ = []\n";
      assert Concat([Header, "\n__all__ = []\n"]) == Header + Concat(["\n__all__ = []\n"]);
      ConcatSingle("\n__all__ = []\n");
      return;
    }
    var g := GatherFiles(baseName, files);
    var lines := RenderModule(SortedEntries(g.entries), g.dynamic);
    text := Concat(lines);
  }

  /** The loop over the `_service.py` paths, filling `aliases` and `dynamic_aliases`. */
  method GatherFiles(baseName: string, files: seq<seq<string>>) returns (g: Gathered)
    ensures g == Gather(baseName, files)
  {
    var entries: seq<Entry> := [];
    var dynamic: seq<string> := [];
    for i := 0 to |files|
      invariant Gathered(entries, dynamic) == Gather(baseName, files[..i])
    {
      assert files[..i + 1][..i] == files[..i];
      match Classify(baseName, files[i]) {
        case StaticRoute(e) => entries := entries + [e];
        case DynamicRoute(a) => dynamic := dynamic + [a];
        case _ =>
      }
    }
    assert files[..|files|] == files;
    g := Gathered(entries, dynamic);
  }

  /** The appends to `lines` for the sorted entries and the dynamic aliases. */
  method RenderModule(entries: seq<Entry>, dynamic: seq<string>) returns (lines: seq<string>)
    ensures lines == ModuleLines(entries, dynamic)
  {
    lines := [Header, "if TYPE_CHECKING:\n"];
    if entries != [] {
      for i := 0 to |entries|
        invariant lines == [Header, "if TYPE_CHECKING:\n"] + Imports(entries[..i])
      {
        assert Imports(entries[..i + 1]) == Imports(entries[..i]) + [ImportLine(entries[i])];
        lines := lines + [ImportLine(entries[i])];
      }
      assert entries[..|entries|] == entries;
    } else {
      lines := lines + ["    pass\n"];
    }
    lines := lines + ["else:\n"];
    var stubs := [];
    for i := 0 to |entries|
      invariant stubs == Stubs(entries[..i])
    {
      assert Stubs(entries[..i + 1]) == Stubs(entries[..i]) + [StubLine(entries[i])];
      stubs := stubs + [StubLine(entries[i])];
    }
    assert entries[..|entries|] == entries;
    var protocols := [];
    for i := 0 to |dynamic|
      invariant protocols == Protocols(dynamic[..i])
    {
      assert Protocols(dynamic[..i + 1]) == Protocols(dynamic[..i]) + [ProtocolLine(dynamic[i])];
      protocols := protocols + [ProtocolLine(dynamic[i])];
    }
    assert dynamic[..|dynamic|] == dynamic;
    var tail := [ExportsLine(entries, dynamic)];
    if dynamic != [] {
      tail := tail + [DynamicNote];
    }
    lines := lines + (stubs + (protocols + tail));
  }

  // ---------------------------------------------------------------------------------------------
  // What the generated module says

  predicate IsImport(chunk: string)
  {
    StartsWith(chunk, "    from ")
  }

  lemma StartsWithLiteral(a: string, b: string, p: string)
    requires |p| <= |a|
    ensures StartsWith(a + b, p) <==> StartsWith(a, p)
  {
    assert (a + b)[..|p|] == a[..|p|];
  }

  /** A string that differs from `p` at position `k` does not start with `p`. */
  lemma DiffersAt(s: string, p: string, k: nat)
    requires k < |p| && k < |s| && s[k] != p[k]
    ensures !StartsWith(s, p)
  {
    if |p| <= |s| {
      assert s[..|p|][k] == s[k];
    }
  }

  /** Neither a stub nor anything after the stubs is an import. */
  lemma LaterChunksNotImports(entries: seq<Entry>, dynamic: seq<string>)
    ensures forall c :: c in Stubs(entries) + (Protocols(dynamic) + Epilogue(entries, dynamic)) ==> !IsImport(c)
  {
    forall c | c in Stubs(entries) ensures !IsImport(c) {
      var k :| 0 <= k < |entries| && c == StubLine(entries[k]);
      assert c[4] == 'c';
      DiffersAt(c, "    from ", 4);
    }
    forall c | c in Protocols(dynamic) + Epilogue(entries, dynamic) ensures !IsImport(c) {
      if c in Protocols(dynamic) {
        var k :| 0 <= k < |dynamic| && c == ProtocolLine(dynamic[k]);
      }
      assert c[0] == '\n';
      DiffersAt(c, "    from ", 0);
    }
  }

  /** The fixed chunks around the imports are not imports. */
  lemma FixedChunksNotImports()
    ensures !IsImport(Header) && !IsImport("if TYPE_CHECKING:\n") && !IsImport("else:\n") && !IsImport("    pass\n")
  {
    assert Header[0] == '"';
    DiffersAt(Header, "    from ", 0);
    DiffersAt("if TYPE_CHECKING:\n", "    from ", 0);
    DiffersAt("else:\n", "    from ", 0);
    DiffersAt("    pass\n", "    from ", 4);
  }

  /** Only import lines start with "    from ". */
  lemma ImportChunks(entries: seq<Entry>, dynamic: seq<string>)
    ensures forall c :: c in ModuleLines(entries, dynamic) && IsImport(c) ==> exists e :: e in entries && c == ImportLine(e)
  {
    LaterChunksNotImports(entries, dynamic);
    FixedChunksNotImports();
    forall c | c in ModuleLines(entries, dynamic) && IsImport(c) ensures exists e :: e in entries && c == ImportLine(e) {
      assert c in Imports(entries);
      var k :| 0 <= k < |entries| && c == ImportLine(entries[k]);
      assert entries[k] in entries;
    }
  }

  /**
   * In the generated module for an existing consumers tree, every import names a static route's
   * module, so a dynamic route is never imported; every static route is imported and every dynamic
   * route gets a Protocol stub.
   */
  lemma GeneratedImports(baseName: string, files: seq<seq<string>>)
    ensures var lines := Generated(true, baseName, files);
      && (forall c :: c in lines && IsImport(c) ==>
            exists f :: f in files && Classify(baseName, f).StaticRoute? && c == ImportLine(Classify(baseName, f).entry))
      && (forall f :: f in files && Classify(baseName, f).StaticRoute? ==> ImportLine(Classify(baseName, f).entry) in lines)
      && (forall f :: f in files && Classify(baseName, f).DynamicRoute? ==> ProtocolLine(Classify(baseName, f).alias) in lines)
  {
    var g := Gather(baseName, files);
    var sorted := SortedEntries(g.entries);
    var lines := Generated(true, baseName, files);
    assert lines == ModuleLines(sorted, g.dynamic);
    GatherCorrect(baseName, files);
    SortedEntriesCorrect(g.entries);
    ImportChunks(sorted, g.dynamic);
    forall c | c in lines && IsImport(c)
      ensures exists f :: f in files && Classify(baseName, f).StaticRoute? && c == ImportLine(Classify(baseName, f).entry)
    {
      var e :| e in sorted && c == ImportLine(e);
      assert e in multiset(sorted);
      assert e in g.entries;
      assert FromStaticFile(baseName, files, e);
      var f :| f in files && Classify(baseName, f) == StaticRoute(e);
    }
    forall f | f in files && Classify(baseName, f).StaticRoute?
      ensures ImportLine(Classify(baseName, f).entry) in lines
    {
      var e := Classify(baseName, f).entry;
      assert e in multiset(g.entries);
      assert e in sorted;
      var k :| 0 <= k < |sorted| && sorted[k] == e;
      assert Imports(sorted)[k] == ImportLine(e);
      assert ImportLine(e) in TypeCheckingBody(sorted);
    }
    forall f | f in files && Classify(baseName, f).DynamicRoute?
      ensures ProtocolLine(Classify(baseName, f).alias) in lines
    {
      var a := Classify(baseName, f).alias;
      var k :| 0 <= k < |g.dynamic| && g.dynamic[k] == a;
      assert Protocols(g.dynamic)[k] == ProtocolLine(a);
    }
  }

  /** No import line is `pass`. */
  lemma ImportsNotPass(entries: seq<Entry>)
    ensures "    pass\n" !in Imports(entries)
  {
    forall c | c in Imports(entries) ensures c != "    pass\n" {
      var k :| 0 <= k < |entries| && c == ImportLine(entries[k]);
      assert c[4] == 'f';
    }
  }

  /** No stub, Protocol or closing line is `pass`. */
  lemma LaterChunksNotPass(entries: seq<Entry>, dynamic: seq<string>)
    ensures "    pass\n" !in Stubs(entries) + (Protocols(dynamic) + Epilogue(entries, dynamic))
  {
    forall c | c in Stubs(entries) ensures c != "    pass\n" {
      var k :| 0 <= k < |entries| && c == StubLine(entries[k]);
      assert c[4] == 'c';
    }
    forall c | c in Protocols(dynamic) ensures c != "    pass\n" {
      var k :| 0 <= k < |dynamic| && c == ProtocolLine(dynamic[k]);
      assert c[0] == '\n';
    }
    forall c | c in Epilogue(entries, dynamic) ensures c != "    pass\n" {
      assert c[0] == '\n';
    }
  }

  /** `pass` is written exactly when there is no import. */
  lemma PassOnlyWithoutImports(entries: seq<Entry>, dynamic: seq<string>)
    ensures "    pass\n" in ModuleLines(entries, dynamic) <==> entries == []
  {
    if entries != [] {
      ImportsNotPass(entries);
      LaterChunksNotPass(entries, dynamic);
      assert Header[0] == '"';
    }
  }

  /** The `if TYPE_CHECKING:` block is `pass` exactly when no route is static. */
  lemma PassIffNoStaticRoute(baseName: string, files: seq<seq<string>>)
    ensures "    pass\n" in Generated(true, baseName, files) <==>
      forall f :: f in files ==> !Classify(baseName, f).StaticRoute?
  {
    var g := Gather(baseName, files);
    var sorted := SortedEntries(g.entries);
    NoEntriesIff(baseName, files);
    SortedEntriesCorrect(g.entries);
    PassOnlyWithoutImports(sorted, g.dynamic);
    assert sorted == [] <==> g.entries == [] by {
      assert |multiset(sorted)| == |sorted| && |multiset(g.entries)| == |g.entries|;
    }
  }

  // ---------------------------------------------------------------------------------------------
  // Every block the module opens has a body

  /** A chunk ending in ":\n" opens a block: `if TYPE_CHECKING:` and `else:`. */
  predicate OpensBlock(chunk: string)
  {
    EndsWith(chunk, ":\n")
  }

  predicate Indented(chunk: string)
  {
    StartsWith(chunk, "    ")
  }

  /** Each chunk that opens a block is followed by an indented chunk: the block's body. */
  predicate BlocksHaveBodies(lines: seq<string>)
  {
    forall i :: 0 <= i < |lines| && OpensBlock(lines[i]) ==> i + 1 < |lines| && Indented(lines[i + 1])
  }

  lemma EndsWithLiteral(a: string, b: string, p: string)
    requires |p| <= |b|
    ensures EndsWith(a + b, p) <==> EndsWith(b, p)
  {
    assert (a + b)[|a + b| - |p|..] == b[|b| - |p|..];
  }

  /**
   * With no static route the module the source writes leaves `else:` without a body: the
   * chunk after it starts at column 0.
   */
  lemma EmptyElseBlock(baseName: string, files: seq<seq<string>>)
    requires forall f :: f in files ==> !Classify(baseName, f).StaticRoute?
    ensures !BlocksHaveBodies(Generated(true, baseName, files))
  {
    var g := Gather(baseName, files);
    NoEntriesIff(baseName, files);
    assert SortedEntries(g.entries) == [];
    ElseUnindented(g.dynamic);
  }

  /** Without entries the chunk after `else:` starts with a newline, not with an indent. */
  lemma ElseUnindented(dynamic: seq<string>)
    ensures var lines := ModuleLines([], dynamic);
      |lines| > 4 && OpensBlock(lines[3]) && !Indented(lines[4])
  {
    ModuleLinesNoEntries(dynamic);
    TailStartsNewline(dynamic);
    ElseThenNewline(Header, Protocols(dynamic) + Epilogue([], dynamic));
  }

  lemma ModuleLinesNoEntries(dynamic: seq<string>)
    ensures ModuleLines([], dynamic)
      == [Header, "if TYPE_CHECKING:\n", "    pass\n", "else:\n"] + (Protocols(dynamic) + Epilogue([], dynamic))
  {
    assert Stubs([]) == [];
  }

  /** After the stubs come the Protocol classes or `__all__`, each starting with a newline. */
  lemma TailStartsNewline(dynamic: seq<string>)
    ensures var rest := Protocols(dynamic) + Epilogue([], dynamic);
      rest != [] && rest[0] != [] && rest[0][0] == '\n'
  {
    var rest := Protocols(dynamic) + Epilogue([], dynamic);
    if dynamic != [] {
      assert rest[0] == ProtocolLine(dynamic[0]);
    } else {
      assert rest[0] == ExportsLine([], dynamic);
    }
  }

  /** `else:` followed by a chunk starting with a newline has an unindented successor. */
  lemma ElseThenNewline(head: string, rest: seq<string>)
    requires rest != [] && rest[0] != [] && rest[0][0] == '\n'
    ensures var lines := [head, "if TYPE_CHECKING:\n", "    pass\n", "else:\n"] + rest;
      |lines| > 4 && OpensBlock(lines[3]) && !Indented(lines[4])
  {
    var lines := [head, "if TYPE_CHECKING:\n", "    pass\n", "else:\n"] + rest;
    assert lines[3] == "else:\n" && lines[4] == rest[0];
  }

  /** The consumers tree with an `api` directory and no route: the generated `else:` is empty. */
  lemma EmptyTreeExample()
    ensures !BlocksHaveBodies(Generated(true, "consumers", []))
  {
    EmptyElseBlock("consumers", []);
  }

  /** The module as evidently intended: `else:` also gets `pass` when there is nothing to stub. */
  function ModuleLinesFixed(entries: seq<Entry>, dynamic: seq<string>): seq<string>
  {
    [Header, "if TYPE_CHECKING:\n"] + TypeCheckingBody(entries) + ["else:\n"]
    + ((if entries != [] then Stubs(entries) else ["    pass\n"]) + (Protocols(dynamic) + Epilogue(entries, dynamic)))
  }

  /** A module of this shape opens exactly its two blocks and gives each a body. */
  lemma {:induction false} ShapeHasBodies(x: seq<string>, y: seq<string>)
    requires x != [] && Indented(x[0])
    requires y != [] && Indented(y[0])
    requires forall c :: c in x + y ==> !OpensBlock(c)
    ensures BlocksHaveBodies([Header, "if TYPE_CHECKING:\n"] + x + ["else:\n"] + y)
  {
    var lines := [Header, "if TYPE_CHECKING:\n"] + x + ["else:\n"] + y;
    assert Header[|Header| - 2] == '\n';
    forall i | 0 <= i < |lines| && i != 1 && i != 2 + |x| ensures !OpensBlock(lines[i]) {
      if i == 0 {
      } else if i < 2 + |x| {
        assert lines[i] == x[i - 2];
        assert x[i - 2] in x + y;
      } else {
        assert lines[i] == y[i - 3 - |x|];
        assert y[i - 3 - |x|] in x + y;
      }
    }
    assert lines[2] == x[0];
    assert lines[3 + |x|] == y[0];
  }

  /** A chunk whose last-but-one character is not ':' opens no block. */
  lemma NotOpening(c: string, a: string, b: string)
    requires c == a + b && |b| >= 2 && b[|b| - 2] != ':'
    ensures !OpensBlock(c)
  {
    assert c[|c| - 2] == b[|b| - 2];
    assert c[|c| - 2..] != ":\n" by {
      assert c[|c| - 2..][0] == c[|c| - 2];
    }
  }

  /** Every alias the generator writes ends in "Service". */
  predicate ServiceAliases(entries: seq<Entry>)
  {
    forall e :: e in entries ==> EndsWith(e.alias, "Service")
  }

  lemma ImportsOpenNothing(entries: seq<Entry>)
    requires ServiceAliases(entries)
    ensures forall c :: c in Imports(entries) ==> !OpensBlock(c)
  {
    forall c | c in Imports(entries) ensures !OpensBlock(c) {
      var k :| 0 <= k < |entries| && c == ImportLine(entries[k]);
      var e := entries[k];
      var tail := e.alias + "\n";
      assert e in entries;
      assert e.alias[|e.alias| - 7..][6] == 'e';
      assert tail[|tail| - 2] == 'e';
      NotOpening(c, "    from " + e.modulePath + " import Service as ", tail);
    }
  }

  lemma StubsOpenNothing(entries: seq<Entry>)
    ensures forall c :: c in Stubs(entries) ==> !OpensBlock(c)
  {
    forall c | c in Stubs(entries) ensures !OpensBlock(c) {
      var k :| 0 <= k < |entries| && c == StubLine(entries[k]);
      NotOpening(c, "    class " + entries[k].alias, ":\n        ...\n");
    }
  }

  lemma ProtocolsOpenNothing(dynamic: seq<string>)
    ensures forall c :: c in Protocols(dynamic) ==> !OpensBlock(c)
  {
    forall c | c in Protocols(dynamic) ensures !OpensBlock(c) {
      var k :| 0 <= k < |dynamic| && c == ProtocolLine(dynamic[k]);
      NotOpening(c, "\nclass " + dynamic[k], "(Protocol):\n    ...\n");
    }
  }

  lemma EpilogueOpensNothing(entries: seq<Entry>, dynamic: seq<string>)
    ensures forall c :: c in Epilogue(entries, dynamic) ==> !OpensBlock(c)
  {
    var j := Join(QuotedAll(Names(entries) + dynamic), ", ");
    NotOpening(ExportsLine(entries, dynamic), "\n__all__ = [" + j, "]\n");
    NotOpening(DynamicNote, "\n" + "# Dynamic routes use Protocol stubs (invalid import paths)", ".\n");
  }

  /** No chunk other than `if TYPE_CHECKING:` and `else:` ends in ":\n". */
  lemma BodiesOpenNothing(entries: seq<Entry>, dynamic: seq<string>)
    requires ServiceAliases(entries)
    ensures forall c :: c in TypeCheckingBody(entries) ==> !OpensBlock(c)
    ensures forall c :: c in Stubs(entries) + (Protocols(dynamic) + Epilogue(entries, dynamic)) ==> !OpensBlock(c)
  {
    ImportsOpenNothing(entries);
    NotOpening("    pass\n", "", "    pass\n");
    StubsOpenNothing(entries);
    ProtocolsOpenNothing(dynamic);
    EpilogueOpensNothing(entries, dynamic);
  }

  /** The corrected module opens its two blocks and gives each a body, whatever the routes. */
  lemma FixedBlocksHaveBodies(entries: seq<Entry>, dynamic: seq<string>)
    requires ServiceAliases(entries)
    ensures BlocksHaveBodies(ModuleLinesFixed(entries, dynamic))
  {
    var x := TypeCheckingBody(entries);
    var rest := Protocols(dynamic) + Epilogue(entries, dynamic);
    var y := (if entries != [] then Stubs(entries) else ["    pass\n"]) + rest;
    BodiesOpenNothing(entries, dynamic);
    if entries != [] {
      var e := entries[0];
      assert x[0] == ImportLine(e);
      assert y[0] == StubLine(e);
    }
    assert !OpensBlock("    pass\n") by {
      NotOpening("    pass\n", "", "    pass\n");
    }
    assert Indented(x[0]) && Indented(y[0]);
    ShapeHasBodies(x, y);
    assert ModuleLinesFixed(entries, dynamic) == [Header, "if TYPE_CHECKING:\n"] + x + ["else:\n"] + y;
  }

  /** Every entry the loop gathers carries a generator alias, so one ending in "Service". */
  lemma GatheredAliases(baseName: string, files: seq<seq<string>>)
    ensures ServiceAliases(Gather(baseName, files).entries)
    ensures ServiceAliases(SortedEntries(Gather(baseName, files).entries))
  {
    var g := Gather(baseName, files);
    GatherCorrect(baseName, files);
    SortedEntriesCorrect(g.entries);
    forall e | e in SortedEntries(g.entries) ensures e in g.entries {
      assert e in multiset(SortedEntries(g.entries));
    }
  }

  /** With the correction, the module generated for any consumers tree gives every block a body. */
  lemma GeneratedFixedHasBodies(baseName: string, files: seq<seq<string>>)
    ensures var g := Gather(baseName, files);
      BlocksHaveBodies(ModuleLinesFixed(SortedEntries(g.entries), g.dynamic))
  {
    var g := Gather(baseName, files);
    GatheredAliases(baseName, files);
    FixedBlocksHaveBodies(SortedEntries(g.entries), g.dynamic);
  }

  /** The correction changes nothing when some route is static. */
  lemma FixedAgreesWithStaticRoutes(entries: seq<Entry>, dynamic: seq<string>)
    requires entries != []
    ensures ModuleLinesFixed(entries, dynamic) == ModuleLines(entries, dynamic)
  {
  }
}
