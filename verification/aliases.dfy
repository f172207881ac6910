/**
 * The names discovery registers a route's service under (yaaf/loader.py): the route key (the
 * segments joined by '_'), the `<Segments>Service` alias and the last segment.
 */
module Aliases {
  import opened Text
  import opened Pattern

  /** The bracket-stripped segments that are identifiers, in order. */
  function IdentifierParts(parts: seq<string>): (r: seq<string>)
    ensures forall p :: p in r ==> IsIdentifier(p)
    ensures r == [] <==> forall i :: 0 <= i < |parts| ==> !IsIdentifier(StripDynamic(parts[i]))
  {
    if parts == [] then []
    else
      var first := StripDynamic(parts[0]);
      var rest := IdentifierParts(parts[1..]);
      assert forall i :: 1 <= i < |parts| ==> parts[1..][i - 1] == parts[i];
      (if IsIdentifier(first) then [first] else []) + rest
  }

  /** Each part with its first character upper-cased, concatenated. */
  function CapitalizedConcat(parts: seq<string>): (r: string)
    ensures (forall p :: p in parts ==> p != "") ==> (r == "" <==> parts == [])
  {
    if parts == [] then ""
    else
      assert parts[0] in parts;
      assert forall p :: p in parts[1..] ==> p in parts;
      Capitalize(parts[0]) + CapitalizedConcat(parts[1..])
  }

  /**
   * loader `_service_alias`: the capitalised identifier segments followed by "Service", with
   * "Route" as the base when no segment is an identifier. Underscores inside a segment are kept.
   */
  function ServiceAlias(parts: seq<string>): (r: string)
    ensures EndsWith(r, "Service") && |r| > |"Service"|
    ensures (forall i :: 0 <= i < |parts| ==> !IsIdentifier(StripDynamic(parts[i]))) ==> r == "RouteService"
    ensures (exists i :: 0 <= i < |parts| && IsIdentifier(StripDynamic(parts[i]))) ==>
      r == CapitalizedConcat(IdentifierParts(parts)) + "Service"
  {
    var safe := IdentifierParts(parts);
    var base := CapitalizedConcat(safe);
    var b := if base == "" then "Route" else base;
    assert (b + "Service")[|b + "Service"| - 7..] == "Service";
    b + "Service"
  }

  /** The last segment, or "" for the empty route. */
  function LastPart(parts: seq<string>): string
  {
    if parts == [] then "" else parts[|parts| - 1]
  }

  /**
   * `service_aliases[root_path]`: `[route_key, <X>Service, last part]` with empty strings removed.
   * Every alias is non-empty, the service alias is always present, the route key comes first
   * when it is non-empty, and nothing else is in the list.
   */
  function AliasList(parts: seq<string>): (r: seq<string>)
    ensures forall a :: a in r ==> a != ""
    ensures ServiceAlias(parts) in r
    ensures Join(parts, "_") != "" ==> r[0] == Join(parts, "_")
    ensures LastPart(parts) != "" ==> LastPart(parts) in r
    ensures forall a :: a in r ==> a == Join(parts, "_") || a == ServiceAlias(parts) || a == LastPart(parts)
    ensures |r| <= 3
    ensures r == (if Join(parts, "_") != "" then [Join(parts, "_")] else []) + [ServiceAlias(parts)]
                 + (if LastPart(parts) != "" then [LastPart(parts)] else [])
  {
    var key, service, last := Join(parts, "_"), ServiceAlias(parts), LastPart(parts);
    CandidatesKept(key, service, last, parts != []);
    CandidatesFiltered(key, service, last, parts != []);
    NonEmpty([key, service] + (if parts != [] then [last] else []))
  }

  /** Filtering the candidates keeps, in order, the non-empty ones. */
  lemma CandidatesFiltered(key: string, service: string, last: string, withLast: bool)
    requires service != ""
    ensures NonEmpty([key, service] + (if withLast then [last] else [])) ==
      (if key != "" then [key] else []) + [service] + (if withLast && last != "" then [last] else [])
  {
    var tail := if withLast then [last] else [];
    assert [key, service] + tail == [key] + ([service] + tail);
    NonEmptyAppend([key], [service] + tail);
    NonEmptyAppend([service], tail);
    NonEmptySingle(key);
    NonEmptySingle(service);
    if withLast {
      NonEmptySingle(last);
    }
  }

  /** What survives of the candidate list `[key, service]` or `[key, service, last]`. */
  lemma CandidatesKept(key: string, service: string, last: string, withLast: bool)
    requires service != ""
    ensures var r := NonEmpty([key, service] + (if withLast then [last] else []));
      && (forall a :: a in r ==> a != "")
      && service in r
      && (key != "" ==> r[0] == key)
      && (withLast && last != "" ==> last in r)
      && (forall a :: a in r ==> a == key || a == service || a == last)
      && |r| <= 3
  {
    var candidates := [key, service] + (if withLast then [last] else []);
    assert forall a :: a in candidates ==> a == key || a == service || a == last;
    assert service in candidates && candidates[0] == key;
    assert withLast ==> last in candidates;
  }

  /** `[alias for alias in aliases if alias]` */
  function NonEmpty(s: seq<string>): (r: seq<string>)
    ensures forall a :: a in r <==> a in s && a != ""
    ensures |r| <= |s|
    ensures s != [] && s[0] != "" ==> r != [] && r[0] == s[0]
  {
    if s == [] then []
    else
      assert s == [s[0]] + s[1..];
      (if s[0] != "" then [s[0]] else []) + NonEmpty(s[1..])
  }

  /** The filter keeps a single string exactly when it is non-empty. */
  lemma NonEmptySingle(x: string)
    ensures NonEmpty([x]) == if x != "" then [x] else []
  {
    assert [x][1..] == [];
  }

  /** The filter works piecewise: it keeps order and repeated elements. */
  lemma {:induction false} NonEmptyAppend(a: seq<string>, b: seq<string>)
    ensures NonEmpty(a + b) == NonEmpty(a) + NonEmpty(b)
  {
    if a == [] {
      assert a + b == b;
    } else {
      var c := a + b;
      assert c[0] == a[0] && c[1..] == a[1..] + b;
      NonEmptyAppend(a[1..], b);
      assert NonEmpty(c) == (if a[0] != "" then [a[0]] else []) + NonEmpty(c[1..]);
    }
  }

  /** The alias of the `users` route in the example consumers tree. */
  lemma UsersAlias()
    ensures ServiceAlias(["users"]) == "UsersService"
    ensures AliasList(["users"]) == ["users", "UsersService", "users"]
  {
    assert IsIdentifier("users");
    assert StripDynamic("users") == "users";
    assert IdentifierParts(["users"]) == ["users"];
    assert Capitalize("users") == "Users";
    assert CapitalizedConcat(["users"]) == "Users";
    assert Join(["users"], "_") == "users";
    assert ServiceAlias(["users"]) == "UsersService";
    var c := ["users", "UsersService", "users"];
    assert c[1..][1..][1..] == [];
    assert NonEmpty(c[1..][1..]) == ["users"];
    assert NonEmpty(c[1..]) == ["UsersService", "users"];
    assert NonEmpty(c) == c;
    var parts := ["users"];
    assert [Join(parts, "_"), ServiceAlias(parts)] + [parts[|parts| - 1]] == c;
  }
}
