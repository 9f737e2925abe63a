/**
 * The post/user feed: finding the author of a post among the fetched users,
 * and handing each user a distinct symbol from a fixed stack of ten.
 */
module Feed {
  import opened Basics

  /** `User`; Swift compares users on all three fields (only `id` feeds the hash). */
  datatype User = User(id: int, username: string, email: string)

  datatype Post = Post(id: int, userId: int, title: string, body: string)

  datatype ModelError = HttpError(statusCode: int) | UnknownUser

  /**
   * `first { $0.id == userId }` over the users in `order`, the order in
   * which the `Set<User>` happens to be iterated.
   */
  function FirstWithId(order: seq<User>, userId: int): (r: Option<User>)
    ensures r.None? <==> forall u :: u in order ==> u.id != userId
    ensures r.Some? ==>
      && r.value.id == userId
      && exists i :: 0 <= i < |order| && order[i] == r.value && forall j :: 0 <= j < i ==> order[j].id != userId
  {
    if order == [] then None
    else if order[0].id == userId then Some(order[0])
    else
      var r := FirstWithId(order[1..], userId);
      if r.Some? then
        var i :| 0 <= i < |order[1..]| && order[1..][i] == r.value &&
          forall j :: 0 <= j < i ==> order[1..][j].id != userId;
        assert order[i + 1] == r.value;
        r
      else r
  }

  /**
   * `APIModel.user(post:)` with `users` iterated in `order`: the first user
   * whose id is the post's `userId`, or the error `unknownUser`.
   */
  function UserFor(order: seq<User>, post: Post): (r: Result<User, ModelError>)
    ensures r.Success? ==> r.value in order && r.value.id == post.userId
    ensures r.Failure? <==> forall u :: u in order ==> u.id != post.userId
    ensures r.Failure? ==> r.error == UnknownUser
  {
    match FirstWithId(order, post.userId)
    case Some(u) => Success(u)
    case None => Failure(UnknownUser)
  }

  /**
   * Whether `user(post:)` throws depends on the set only, not on its
   * iteration order; when no two users share an id (as the feed's user list
   * is keyed) the user found does not depend on the order either.
   */
  lemma UserForIgnoresOrder(order1: seq<User>, order2: seq<User>, post: Post)
    requires Elements(order1) == Elements(order2)
    ensures UserFor(order1, post).Failure? <==> UserFor(order2, post).Failure?
    ensures (forall u, v :: u in order1 && v in order1 && u.id == v.id ==> u == v) ==>
      UserFor(order1, post) == UserFor(order2, post)
  {
    assert forall u :: u in order1 <==> u in Elements(order1);
    assert forall u :: u in order2 <==> u in Elements(order2);
  }

  /** The symbol stack `assignUserSymbols` starts from; `popLast` takes from its end. */
  const Symbols: seq<string> := [
    "heart.fill", "star.fill", "circle.fill", "diamond.fill", "triangle.fill",
    "bolt.fill", "moon.fill", "pencil", "paperplane.fill", "house.fill"
  ]

  /** What `UserView` shows for a user without an entry. */
  const DefaultSymbol: string := "square.fill"

  lemma SymbolsDistinct()
    ensures Distinct(Symbols) && DefaultSymbol !in Symbols
  {
  }

  /**
   * `userSymbol` after the loop of `assignUserSymbols` has processed the
   * users of `order`, first to last, starting from the dictionary `m`: the
   * k-th user processed (from 0) receives what the k-th `popLast` returns,
   * and assigning the nil of an empty stack removes the user's entry.
   */
  function AssignSymbols(m: map<User, string>, order: seq<User>, stack: seq<string>): (r: map<User, string>)
    ensures forall u :: u in r ==> if u in order then r[u] in stack else u in m && r[u] == m[u]
    ensures forall u :: u !in order && u in m ==> u in r && r[u] == m[u]
    decreases |order|
  {
    if order == [] then m
    else
      var before := AssignSymbols(m, DropLast(order), stack);
      var k := |order| - 1;
      if k < |stack| then before[Last(order) := stack[|stack| - 1 - k]]
      else before - {Last(order)}
  }

  /**
   * The k-th user processed gets the k-th symbol from the end of the stack
   * while the stack lasts and has no entry afterwards; users not processed
   * keep whatever entry they had.
   */
  lemma AssignSymbolsAt(m: map<User, string>, order: seq<User>, stack: seq<string>)
    requires Distinct(order)
    ensures forall k :: 0 <= k < |order| && k < |stack| ==>
      order[k] in AssignSymbols(m, order, stack) && AssignSymbols(m, order, stack)[order[k]] == stack[|stack| - 1 - k]
    ensures forall k :: |stack| <= k < |order| ==> order[k] !in AssignSymbols(m, order, stack)
    ensures forall u :: u !in order ==>
      (u in AssignSymbols(m, order, stack) <==> u in m) &&
      (u in m ==> AssignSymbols(m, order, stack)[u] == m[u])
  {
    forall k | 0 <= k < |order|
      ensures k < |stack| ==>
        order[k] in AssignSymbols(m, order, stack) && AssignSymbols(m, order, stack)[order[k]] == stack[|stack| - 1 - k]
      ensures k >= |stack| ==> order[k] !in AssignSymbols(m, order, stack)
    {
      AssignedAt(m, order, stack, k);
    }
    forall u | u !in order
      ensures (u in AssignSymbols(m, order, stack) <==> u in m) &&
        (u in m ==> AssignSymbols(m, order, stack)[u] == m[u])
    {
      AssignKeeps(m, order, stack, u);
    }
  }

  /** The entry of the k-th user processed, by induction on the users processed after it. */
  lemma {:induction false} AssignedAt(m: map<User, string>, order: seq<User>, stack: seq<string>, k: nat)
    requires Distinct(order) && k < |order|
    ensures k < |stack| ==>
      order[k] in AssignSymbols(m, order, stack) && AssignSymbols(m, order, stack)[order[k]] == stack[|stack| - 1 - k]
    ensures k >= |stack| ==> order[k] !in AssignSymbols(m, order, stack)
    decreases |order|
  {
    if k < |order| - 1 {
      var prefix := DropLast(order);
      assert Distinct(prefix) && prefix[k] == order[k] && order[k] != Last(order);
      AssignedAt(m, prefix, stack, k);
    }
  }

  /** A user outside `order` keeps its entry, or its lack of one. */
  lemma {:induction false} AssignKeeps(m: map<User, string>, order: seq<User>, stack: seq<string>, u: User)
    requires u !in order
    ensures u in AssignSymbols(m, order, stack) <==> u in m
    ensures u in m ==> AssignSymbols(m, order, stack)[u] == m[u]
    decreases |order|
  {
    if order != [] {
      assert u !in DropLast(order) && u != Last(order);
      AssignKeeps(m, DropLast(order), stack, u);
    }
  }

  /**
   * What `assignUserSymbols` promises, for its stack of ten symbols: every
   * entry it writes is one of the ten, distinct users get distinct symbols,
   * with at most ten users every user has an entry, and entries of users
   * outside the set are untouched.
   */
  lemma AssignSymbolsProperties(m: map<User, string>, order: seq<User>)
    requires Distinct(order)
    ensures forall u :: u in order && u in AssignSymbols(m, order, Symbols) ==>
      AssignSymbols(m, order, Symbols)[u] in Symbols
    ensures forall u, v ::
      u in order && v in order && u != v && u in AssignSymbols(m, order, Symbols) && v in AssignSymbols(m, order, Symbols) ==>
      AssignSymbols(m, order, Symbols)[u] != AssignSymbols(m, order, Symbols)[v]
    ensures |order| <= |Symbols| ==> forall u :: u in order ==> u in AssignSymbols(m, order, Symbols)
    ensures forall u :: u !in order ==>
      (u in AssignSymbols(m, order, Symbols) <==> u in m) &&
      (u in m ==> AssignSymbols(m, order, Symbols)[u] == m[u])
  {
    AssignSymbolsAt(m, order, Symbols);
    SymbolsDistinct();
    var r, n := AssignSymbols(m, order, Symbols), |Symbols|;
    forall u | u in order && u in r ensures r[u] in Symbols {
      var k :| 0 <= k < |order| && order[k] == u;
    }
    forall u, v | u in order && v in order && u != v && u in r && v in r ensures r[u] != r[v] {
      var k :| 0 <= k < |order| && order[k] == u;
      var l :| 0 <= l < |order| && order[l] == v;
      assert k < n && l < n && k != l;
      assert Symbols[n - 1 - k] != Symbols[n - 1 - l];
    }
    forall u | |order| <= n && u in order ensures u in r {
      var k :| 0 <= k < |order| && order[k] == u;
    }
  }

  /**
   * `model.userSymbol[user, default: "square.fill"]`: a user's entry, or the
   * default; when no entry is the default itself, the default is shown
   * exactly for users without an entry.
   */
  function ShownSymbol(userSymbol: map<User, string>, user: User): (r: string)
    ensures r == DefaultSymbol || (user in userSymbol && r == userSymbol[user])
    ensures (forall u :: u in userSymbol ==> userSymbol[u] != DefaultSymbol) ==>
      (r == DefaultSymbol <==> user !in userSymbol)
  {
    if user in userSymbol then userSymbol[user] else DefaultSymbol
  }

  /**
   * After the assignment, the k-th user processed is shown the k-th symbol
   * from the end of the stack when k < 10, and the default symbol exactly
   * when k >= 10, whatever entry the user had before.
   */
  lemma ShownSymbolAfterAssignment(m: map<User, string>, order: seq<User>, k: nat)
    requires Distinct(order) && k < |order|
    ensures k < |Symbols| ==> ShownSymbol(AssignSymbols(m, order, Symbols), order[k]) == Symbols[|Symbols| - 1 - k]
    ensures ShownSymbol(AssignSymbols(m, order, Symbols), order[k]) == DefaultSymbol <==> k >= |Symbols|
  {
    AssignSymbolsAt(m, order, Symbols);
    SymbolsDistinct();
  }

  /** The symbol stack after `k` pops, and what the next pop returns. */
  lemma PopFromStack(k: nat, symbols: seq<string>)
    requires k <= |Symbols| ==> symbols == Symbols[..|Symbols| - k]
    requires k > |Symbols| ==> symbols == []
    ensures k < |Symbols| ==> PopLast(symbols).0 == Some(Symbols[|Symbols| - 1 - k])
    ensures k >= |Symbols| ==> PopLast(symbols).0 == None
    ensures k + 1 <= |Symbols| ==> PopLast(symbols).1 == Symbols[..|Symbols| - (k + 1)]
    ensures k + 1 > |Symbols| ==> PopLast(symbols).1 == []
  {
  }

  /** One more user processed: `AssignSymbols` unfolded once. */
  lemma AssignSymbolsSnoc(m: map<User, string>, order: seq<User>, user: User, stack: seq<string>)
    ensures |order| < |stack| ==>
      AssignSymbols(m, order + [user], stack) == AssignSymbols(m, order, stack)[user := stack[|stack| - 1 - |order|]]
    ensures |order| >= |stack| ==>
      AssignSymbols(m, order + [user], stack) == AssignSymbols(m, order, stack) - {user}
  {
    assert DropLast(order + [user]) == order && Last(order + [user]) == user;
  }

  /** The part of `UserViewModel` that hands out symbols. */
  class UserViewModel {
    var userSymbol: map<User, string>

    constructor ()
      ensures userSymbol == map[]
    {
      userSymbol := map[];
    }

    /**
     * `assignUserSymbols(users:)`. The set is iterated in an unspecified
     * order; `order` records the order this run used.
     */
    method AssignUserSymbols(users: set<User>) returns (ghost order: seq<User>)
      modifies this
      ensures Distinct(order) && Elements(order) == users && |order| == |users|
      ensures userSymbol == AssignSymbols(old(userSymbol), order, Symbols)
    {
      var symbols := Symbols;
      var rest := users;
      order := [];
      while rest != {}
        invariant Distinct(order) && Elements(order) <= users
        invariant rest == users - Elements(order)
        invariant |order| <= |Symbols| ==> symbols == Symbols[..|Symbols| - |order|]
        invariant |order| > |Symbols| ==> symbols == []
        invariant userSymbol == AssignSymbols(old(userSymbol), order, Symbols)
        decreases rest
      {
        var user :| user in rest;
        var (popped, remaining) := PopLast(symbols);
        PopFromStack(|order|, symbols);
        AssignSymbolsSnoc(old(userSymbol), order, user, Symbols);
        symbols := remaining;
        match popped {
          case Some(s) => userSymbol := userSymbol[user := s];
          case None => userSymbol := userSymbol - {user};
        }
        assert Elements(order + [user]) == Elements(order) + {user};
        order := order + [user];
        rest := rest - {user};
      }
      assert Elements(order) == users by {
        forall u | u in users ensures u in Elements(order) {
          assert u !in rest;
        }
      }
      DistinctCardinality(order);
    }
  }
}
