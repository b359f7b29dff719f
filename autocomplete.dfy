/**
 * The autocomplete endpoint `AutoComplete.get`: it validates the query
 * parameters `q`, `type` and `limit`, searches the user table for `q` in
 * three name fields, and shapes the matching users into suggestions.
 *
 * A query parameter is an `Option<string>`: `None` when the request does not
 * carry it. The user table is a sequence in the order the database returns it.
 */
module Autocomplete {
  import opened Wrappers
  import opened PyStr
  import opened PyInt

  datatype User = User(username: string, firstName: string, lastName: string)

  /** One suggestion: `{'id': ..., 'label': ...}` (`label` is a Dafny keyword, hence `caption`). */
  datatype Item = Item(id: string, caption: string)

  /** A group of suggestions: `{'id': ..., 'label': ..., 'data': [...]}`. */
  datatype Group = Group(id: string, caption: string, data: seq<Item>)

  /**
   * What the view answers: a 400 response carrying a message, a bare list of
   * suggestions, a list of groups, or an exception raised out of the view.
   */
  datatype Response =
    | Error(message: string)
    | Plain(items: seq<Item>)
    | Grouped(groups: seq<Group>)
    | Raised

  const DefaultLimit: int := 100
  const UserType: string := "user"
  const UserGroupId: string := "Django Auth User"
  const UserGroupLabel: string := "User"

  const LimitMessage: string := "Limit should be an integer"
  const QueryMessage: string := "The search query string is not provided."
  const TypeMessage: string := "Type parameter should either be empty or include user"

  /** The HTTP status of a response; an exception escaping the view becomes a server error. */
  function Status(r: Response): (code: int)
    ensures code == 400 <==> r.Error?
    ensures code == 200 <==> (r.Plain? || r.Grouped?)
  {
    match r
    case Error(_) => 400
    case Plain(_) => 200
    case Grouped(_) => 200
    case Raised => 500
  }

  /** Python truthiness of an optional string: present and not empty. */
  predicate Truthy(s: Option<string>) {
    s.Some? && s.value != []
  }

  /** Python truthiness of an optional list. */
  predicate NonEmptyList(l: Option<seq<string>>) {
    l.Some? && l.value != []
  }

  // ---------------------------------------------------------------------------
  // Parameter parsing
  // ---------------------------------------------------------------------------

  /**
   * `int(limit) if limit else 100`; `None` when `int()` raises, which the view
   * reports as an error. A present limit is the value of its stripped literal.
   */
  function EffectiveLimit(limit: Option<string>): (r: Option<int>)
    ensures !Truthy(limit) ==> r == Some(DefaultLimit)
    ensures Truthy(limit) ==> r == ParseInt(limit.value)
    ensures Truthy(limit) && r.Some? ==> r.value == SignedValue(Strip(limit.value))
    ensures r.None? <==> Truthy(limit) && !IsIntLiteral(limit.value)
  {
    if Truthy(limit) then ParseInt(limit.value) else Some(DefaultLimit)
  }

  /**
   * `t.lower().strip()` for one comma-separated piece `t`: the entry has no
   * capital letter, no surrounding whitespace, and no comma the piece lacked.
   */
  function TypeEntry(piece: string): (e: string)
    ensures Trimmed(e)
    ensures forall c :: c in e ==> !IsUpper(c)
    ensures ',' in e ==> ',' in piece
  {
    var lowered := Lower(piece);
    var e := Strip(lowered);
    assert ',' in e ==> ',' in piece by {
      if ',' in e {
        var i :| 0 <= i < |lowered| && lowered[i] == ',';
        assert piece[i] == ',';
      }
    }
    e
  }

  /** An entry is `user` exactly when its piece is `user` in any case, with any whitespace around it. */
  lemma TypeEntryIsUser(piece: string)
    ensures TypeEntry(piece) == UserType
      <==> exists before, after :: AllSpace(before) && AllSpace(after) && Lower(piece) == before + UserType + after
  {
    assert TypeEntry(piece) == Strip(Lower(piece));
    StripIsCore(Lower(piece), UserType);
  }

  /**
   * `[t.lower().strip() for t in type.split(',')] if type else None`: entry
   * `k` is piece `k` of `type`, lower-cased and stripped; there is one entry
   * more than there are commas, and no entry holds a comma.
   */
  function TypeList(typ: Option<string>): (r: Option<seq<string>>)
    ensures r.None? <==> !Truthy(typ)
    ensures r.Some? ==> |r.value| == Count(typ.value, ',') + 1
    ensures r.Some? ==> |r.value| == |Split(typ.value, ',')|
    ensures r.Some? ==> forall k :: 0 <= k < |r.value| ==> r.value[k] == TypeEntry(Split(typ.value, ',')[k])
    ensures r.Some? ==> forall k :: 0 <= k < |r.value| ==> ',' !in r.value[k]
  {
    if Truthy(typ) then
      var pieces := Split(typ.value, ',');
      Some(seq(|pieces|, k requires 0 <= k < |pieces| => TypeEntry(pieces[k])))
    else None
  }

  /** `(typelist and 'user' in typelist) or not typelist`. */
  predicate AcceptsUsers(typelist: Option<seq<string>>) {
    (NonEmptyList(typelist) && UserType in typelist.value) || !NonEmptyList(typelist)
  }

  /** `typelist and 'user' in typelist`: the suggestions are wrapped in a group. */
  predicate WantsGroup(typelist: Option<seq<string>>) {
    NonEmptyList(typelist) && UserType in typelist.value
  }

  // ---------------------------------------------------------------------------
  // Searching
  // ---------------------------------------------------------------------------

  /** `field__icontains=q`, with case folded over the ASCII letters. */
  predicate IContains(field: string, q: string) {
    Contains(Lower(field), Lower(q))
  }

  /** The OR of the three `icontains` conditions of the query. */
  predicate Matches(u: User, q: string) {
    IContains(u.firstName, q) || IContains(u.lastName, q) || IContains(u.username, q)
  }

  /**
   * `UserModel.objects.filter(query)`: the users that match, in table order,
   * each as often as it occurs in the table.
   */
  function FilterUsers(users: seq<User>, q: string): (r: seq<User>)
    ensures |r| <= |users|
    ensures forall u :: multiset(r)[u] == if Matches(u, q) then multiset(users)[u] else 0
  {
    if users == [] then []
    else
      var rest := FilterUsers(users[1..], q);
      assert users == [users[0]] + users[1..];
      assert multiset(users) == multiset([users[0]]) + multiset(users[1..]);
      if Matches(users[0], q) then [users[0]] + rest else rest
  }

  /** Every user in the filtered table matches, and every matching user is there. */
  lemma FilterUsersMembers(users: seq<User>, q: string, u: User)
    ensures u in FilterUsers(users, q) <==> u in users && Matches(u, q)
  {
    var r := FilterUsers(users, q);
    assert u in r <==> multiset(r)[u] > 0;
    assert u in users <==> multiset(users)[u] > 0;
  }

  /** Filtering keeps the table's order: it distributes over concatenation. */
  lemma {:induction false} FilterUsersAppend(a: seq<User>, b: seq<User>, q: string)
    ensures FilterUsers(a + b, q) == FilterUsers(a, q) + FilterUsers(b, q)
    decreases |a|
  {
    if a == [] {
      assert a + b == b;
    } else {
      assert (a + b)[0] == a[0];
      assert (a + b)[1..] == a[1..] + b;
      FilterUsersAppend(a[1..], b, q);
    }
  }

  /** `s[:stop]` for a non-negative `stop`: the longest prefix of at most `stop` elements. */
  function SliceTo<T>(s: seq<T>, stop: nat): (r: seq<T>)
    ensures r <= s
    ensures |r| == if stop < |s| then stop else |s|
  {
    if stop < |s| then s[..stop] else s
  }

  // ---------------------------------------------------------------------------
  // Shaping the suggestions
  // ---------------------------------------------------------------------------

  /**
   * The label of a user: first and last name joined by a space when both are
   * set, else whichever one is set, else the username.
   */
  function Label(u: User): (r: string)
    ensures r == [] <==> u.firstName == [] && u.lastName == [] && u.username == []
    ensures u.firstName != [] ==> u.firstName <= r
  {
    if u.firstName != [] && u.lastName != [] then u.firstName + " " + u.lastName
    else if u.firstName != [] then u.firstName
    else if u.lastName != [] then u.lastName
    else u.username
  }

  /** The names among `names` that are not empty, in order. */
  function NonEmptyNames(names: seq<string>): (r: seq<string>)
    ensures forall k :: 0 <= k < |r| ==> r[k] != []
    ensures |r| <= |names|
  {
    if names == [] then []
    else if names[0] != [] then [names[0]] + NonEmptyNames(names[1..])
    else NonEmptyNames(names[1..])
  }

  /** The label described independently: the set names joined by spaces, or the username if none is set. */
  function JoinedNames(u: User): string {
    var names := NonEmptyNames([u.firstName, u.lastName]);
    if names == [] then u.username else Join(names, ' ')
  }

  /** The view's chain of conditionals picks the joined set names, falling back to the username. */
  lemma LabelIsJoinedNames(u: User)
    ensures Label(u) == JoinedNames(u)
  {
    var names := [u.firstName, u.lastName];
    assert names[1..] == [u.lastName];
    assert [u.lastName][1..] == [];
    var tail := if u.lastName != [] then [u.lastName] else [];
    assert NonEmptyNames([u.lastName]) == tail;
    if u.firstName != [] {
      assert NonEmptyNames(names) == [u.firstName] + tail;
      if u.lastName != [] {
        assert Join([u.firstName, u.lastName], ' ') == u.firstName + [' '] + Join([u.lastName], ' ');
      }
    } else {
      assert NonEmptyNames(names) == tail;
    }
  }

  /** The suggestion made for one user. */
  function ToItem(u: User): (it: Item)
    ensures it.id == u.username
    ensures it.caption == Label(u)
  {
    Item(u.username, Label(u))
  }

  /** The list comprehension building the suggestions, one per user, in order. */
  function Items(users: seq<User>): (r: seq<Item>)
    ensures |r| == |users|
    ensures forall i :: 0 <= i < |users| ==> r[i] == ToItem(users[i])
  {
    seq(|users|, i requires 0 <= i < |users| => ToItem(users[i]))
  }

  // ---------------------------------------------------------------------------
  // The endpoint
  // ---------------------------------------------------------------------------

  /** The parameters pass the view's checks and the search runs. */
  predicate Searches(q: Option<string>, typ: Option<string>, limit: Option<string>) {
    EffectiveLimit(limit).Some? && Truthy(q) && AcceptsUsers(TypeList(typ))
  }

  /**
   * The users the view formats: the matching users, cut to the first `n`
   * by `users[:limit] if limit else users` (a limit of 0 cuts nothing).
   */
  function Selected(users: seq<User>, q: string, n: nat): (r: seq<User>)
    ensures n == 0 ==> r == FilterUsers(users, q)
    ensures n > 0 ==> r <= FilterUsers(users, q)
    ensures n > 0 ==> |r| == if n < |FilterUsers(users, q)| then n else |FilterUsers(users, q)|
  {
    var matching := FilterUsers(users, q);
    if n != 0 then SliceTo(matching, n) else matching
  }

  /**
   * `AutoComplete.get`. A negative limit makes the queryset slice raise
   * (Django rejects negative slice bounds), outside the view's `try`.
   */
  function Get(q: Option<string>, typ: Option<string>, limit: Option<string>, users: seq<User>): (r: Response)
    ensures r == Error(LimitMessage) <==> Truthy(limit) && !IsIntLiteral(limit.value)
    ensures r == Error(QueryMessage) <==> EffectiveLimit(limit).Some? && !Truthy(q)
    ensures r == Error(TypeMessage) <==>
      EffectiveLimit(limit).Some? && Truthy(q) && Truthy(typ) && UserType !in TypeList(typ).value
    ensures r.Raised? <==> Searches(q, typ, limit) && EffectiveLimit(limit).value < 0
    ensures r.Grouped? <==> Searches(q, typ, limit) && EffectiveLimit(limit).value >= 0 && Truthy(typ)
    ensures r.Plain? <==> Searches(q, typ, limit) && EffectiveLimit(limit).value >= 0 && !Truthy(typ)
    ensures r.Grouped? ==> |r.groups| == 1 && r.groups[0].id == UserGroupId && r.groups[0].caption == UserGroupLabel
    ensures r.Plain? || r.Grouped? ==>
      Searches(q, typ, limit) && EffectiveLimit(limit).value >= 0 &&
      Suggestions(r) == Items(Selected(users, q.value, EffectiveLimit(limit).value))
  {
    match EffectiveLimit(limit)
    case None => Error(LimitMessage)
    case Some(n) =>
      var typelist := TypeList(typ);
      if !Truthy(q) then Error(QueryMessage)
      else if AcceptsUsers(typelist) then
        if n < 0 then Raised
        else
          var data := Items(Selected(users, q.value, n));
          if WantsGroup(typelist) then Grouped([Group(UserGroupId, UserGroupLabel, data)])
          else Plain(data)
      else Error(TypeMessage)
  }

  /** `limit=5` caps the suggestions at five. */
  lemma LimitFive()
    ensures EffectiveLimit(Some("5")) == Some(5)
  {
    PyInt.ParseShowInt(5);
    assert PyInt.ShowInt(5) == "5";
  }

  /** The suggestions of a successful response, with or without the group around them. */
  function Suggestions(r: Response): seq<Item>
    requires r.Plain? || (r.Grouped? && |r.groups| == 1)
  {
    if r.Plain? then r.items else r.groups[0].data
  }

  /** Every selected user matches the query. */
  lemma SelectedMatch(users: seq<User>, q: string, n: nat, u: User)
    ensures u in Selected(users, q, n) ==> u in users && Matches(u, q)
  {
    var matching := FilterUsers(users, q);
    FilterUsersMembers(users, q, u);
    if n != 0 && u in SliceTo(matching, n) {
      var i :| 0 <= i < |SliceTo(matching, n)| && SliceTo(matching, n)[i] == u;
      assert matching[i] == u;
    }
  }

  /** Every suggestion comes from a user that matches the query. */
  lemma SuggestionsMatch(q: Option<string>, typ: Option<string>, limit: Option<string>, users: seq<User>, it: Item)
    requires Get(q, typ, limit, users).Plain? || Get(q, typ, limit, users).Grouped?
    ensures it in Suggestions(Get(q, typ, limit, users)) ==>
      exists u :: u in users && Matches(u, q.value) && it == ToItem(u)
  {
    var kept := Selected(users, q.value, EffectiveLimit(limit).value);
    if it in Items(kept) {
      var i :| 0 <= i < |kept| && Items(kept)[i] == it;
      SelectedMatch(users, q.value, EffectiveLimit(limit).value, kept[i]);
    }
  }

  /** With limit 0 nothing is cut: every matching user is suggested, in table order. */
  lemma SuggestionsUncapped(q: Option<string>, typ: Option<string>, limit: Option<string>, users: seq<User>)
    requires EffectiveLimit(limit) == Some(0) && Truthy(q) && AcceptsUsers(TypeList(typ))
    ensures Suggestions(Get(q, typ, limit, users)) == Items(FilterUsers(users, q.value))
    ensures forall u :: u in users && Matches(u, q.value) ==> ToItem(u) in Suggestions(Get(q, typ, limit, users))
  {
    var filtered := FilterUsers(users, q.value);
    forall u | u in users && Matches(u, q.value)
      ensures ToItem(u) in Items(filtered)
    {
      FilterUsersMembers(users, q.value, u);
      var i :| 0 <= i < |filtered| && filtered[i] == u;
      assert Items(filtered)[i] == ToItem(u);
    }
  }

  /** Formatting a prefix of the users gives a prefix of the suggestions. */
  lemma ItemsOfPrefix(a: seq<User>, b: seq<User>)
    requires a <= b
    ensures Items(a) <= Items(b)
  {
    assert forall i :: 0 <= i < |a| ==> Items(a)[i] == ToItem(b[i]);
  }

  /**
   * With a positive limit `n` the suggestions are those of the first `n`
   * matching users, or of all of them when fewer match.
   */
  lemma SuggestionsCapped(q: Option<string>, typ: Option<string>, limit: Option<string>, users: seq<User>, n: int)
    requires EffectiveLimit(limit) == Some(n) && n > 0 && Truthy(q) && AcceptsUsers(TypeList(typ))
    ensures |Suggestions(Get(q, typ, limit, users))| <= n
    ensures Suggestions(Get(q, typ, limit, users)) <= Items(FilterUsers(users, q.value))
    ensures |Suggestions(Get(q, typ, limit, users))| == n
      || Suggestions(Get(q, typ, limit, users)) == Items(FilterUsers(users, q.value))
  {
    var r := Get(q, typ, limit, users);
    assert r.Plain? || r.Grouped?;
    ItemsOfPrefix(Selected(users, q.value, n), FilterUsers(users, q.value));
  }

  // ---------------------------------------------------------------------------
  // Examples of the type check
  // ---------------------------------------------------------------------------

  /** `type=,` splits into two empty entries, neither of which is `user`. */
  lemma CommaTypeRejected(q: string, users: seq<User>)
    requires q != []
    ensures Get(Some(q), Some(","), None, users) == Error(TypeMessage)
  {
    var typ := ",";
    var pieces := Split(typ, ',');
    assert pieces == [[], []] by {
      assert typ[1..] == [];
    }
    assert TypeEntry([]) == [];
    assert UserType !in TypeList(Some(typ)).value;
  }

  lemma GroupEntry()
    ensures TypeEntry("group") == "group"
  {
    assert Lower("group") == "group";
    StripTrimmed("group");
  }

  lemma GroupTypeList()
    ensures UserType !in TypeList(Some("group")).value
  {
    SplitSepFree("group", ',');
    GroupEntry();
  }

  /** `type=group` names no user model. */
  lemma GroupTypeRejected(q: string, users: seq<User>)
    requires q != []
    ensures Get(Some(q), Some("group"), None, users) == Error(TypeMessage)
  {
    GroupTypeList();
  }

  lemma PaddedUserFirstPiece()
    ensures Split(" User ,group", ',')[0] == " User "
  {
    SplitJoin([" User ", "group"], ',');
    assert Join([" User ", "group"], ',') == " User ,group";
  }

  lemma PaddedUserEntry()
    ensures TypeEntry(" User ") == UserType
  {
    assert Lower(" User ") == " " + UserType + " ";
    StripPadded(" ", UserType, " ");
  }

  lemma PaddedUserTypeList()
    ensures UserType in TypeList(Some(" User ,group")).value
  {
    PaddedUserFirstPiece();
    PaddedUserEntry();
  }

  /** `type= User ,group` is accepted, and the suggestions are grouped. */
  lemma PaddedUserTypeGrouped(q: string, users: seq<User>)
    requires q != []
    ensures Get(Some(q), Some(" User ,group"), None, users).Grouped?
  {
    PaddedUserTypeList();
  }

}
