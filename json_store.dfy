/**
 * The JSON-file server (server.js): the tables `users`, `habits` and `completions` it keeps in
 * memory and writes to `data.json`, and the request handlers that edit them.
 */
module JsonStore {
  import opened Wrappers
  import opened Seqs
  import opened Text
  import BackendClient

  datatype User = User(id: int, username: string, email: string, passwordHash: string, createdAt: string)

  datatype StoredHabit = StoredHabit(id: int, userId: int, name: string, createdAt: string)

  /** One completion of a habit on a date; the server never looks inside the date string. */
  datatype Completion = Completion(id: int, habitId: int, date: string)

  /** A habit as `GET /api/habits` sends it: the stored fields and its completed dates. */
  datatype HabitView = HabitView(habit: StoredHabit, completedDates: seq<string>)

  const MinPasswordLength: nat := 6

  // ----- parseInt -----

  /** The number of decimal digits `s` starts with. */
  function LeadingDigits(s: string): (n: nat)
    ensures n <= |s| && AllDigits(s[..n])
    ensures n < |s| ==> !IsDigit(s[n])
  {
    if s == [] || !IsDigit(s[0]) then 0
    else
      var n := 1 + LeadingDigits(s[1..]);
      assert s[..n] == [s[0]] + s[1..][..n - 1];
      n
  }

  /**
   * `parseInt(s, 10)`: leading white space skipped, an optional sign, then as many decimal
   * digits as there are; None (NaN) when there is no digit.
   */
  function ParseInt(s: string): Option<int>
  {
    var t := s[LeadingWhitespace(s)..];
    var negative := t != [] && t[0] == '-';
    var rest := if t != [] && (t[0] == '-' || t[0] == '+') then t[1..] else t;
    var n := LeadingDigits(rest);
    if n == 0 then None
    else if negative then Some(-(DigitsValue(rest[..n]) as int))
    else Some(DigitsValue(rest[..n]))
  }

  /** The id in `/api/habits/${id}` is read back as the number the client wrote. */
  lemma ParseIntOfDec(n: nat)
    ensures ParseInt(Dec(n)) == Some(n)
  {
    var s := Dec(n);
    DigitIsNotWhitespace(s[0]);
    assert LeadingWhitespace(s) == 0;
    assert s[0..] == s;
    LeadingDigitsOfDigits(s);
    assert s[..|s|] == s;
    DigitsValueOfDec(n);
  }

  lemma LeadingDigitsOfDigits(s: string)
    requires AllDigits(s)
    ensures LeadingDigits(s) == |s|
  {
    if s != [] {
      LeadingDigitsOfDigits(s[1..]);
    }
  }

  /** Trailing text after the digits is ignored, as `parseInt("12abc", 10)` is 12. */
  lemma ParseIntIgnoresTail(n: nat, tail: string)
    requires tail == [] || !IsDigit(tail[0])
    ensures ParseInt(Dec(n) + tail) == Some(n)
  {
    var d := Dec(n);
    var s := d + tail;
    assert s[0] == d[0];
    DigitIsNotWhitespace(s[0]);
    assert LeadingWhitespace(s) == 0;
    assert s[0..] == s;
    LeadingDigitsOfPrefix(d, tail);
    assert s[..|d|] == d;
    DigitsValueOfDec(n);
  }

  lemma {:induction false} LeadingDigitsOfPrefix(d: string, tail: string)
    requires AllDigits(d)
    requires tail == [] || !IsDigit(tail[0])
    ensures LeadingDigits(d + tail) == |d|
  {
    if d != [] {
      assert (d + tail)[1..] == d[1..] + tail;
      LeadingDigitsOfPrefix(d[1..], tail);
    } else {
      assert d + tail == tail;
    }
  }

  // ----- lookups -----

  /** `users.find(u => u.email === email || u.username === username)` finds a user. */
  predicate Taken(users: seq<User>, email: string, username: string)
  {
    exists k | 0 <= k < |users| :: users[k].email == email || users[k].username == username
  }

  /** `habits.findIndex(h => h.id === habitId && h.userId === userId)`; a NaN id owns nothing. */
  function FindOwned(habits: seq<StoredHabit>, habitId: Option<int>, userId: int): (r: Option<nat>)
    ensures r.Some? ==> (habitId.Some? && r.value < |habits|
      && habits[r.value].id == habitId.value && habits[r.value].userId == userId)
    ensures r.Some? ==> forall k | 0 <= k < r.value :: !(habits[k].id == habitId.value && habits[k].userId == userId)
    ensures r.None? <==> habitId.None? || forall k | 0 <= k < |habits| :: !(habits[k].id == habitId.value && habits[k].userId == userId)
  {
    if habitId.None? || habits == [] then None
    else if habits[0].id == habitId.value && habits[0].userId == userId then Some(0)
    else match FindOwned(habits[1..], habitId, userId)
      case None => None
      case Some(i) => Some(i + 1)
  }

  /** The pair a completion records, which the toggle keeps unique. */
  function Key(c: Completion): (int, string)
  {
    (c.habitId, c.date)
  }

  /** `completions.findIndex(c => c.habitId === habitId && c.date === date)`. */
  function FindCompletion(completions: seq<Completion>, habitId: int, date: string): (r: Option<nat>)
    ensures r.Some? ==> r.value < |completions| && Key(completions[r.value]) == (habitId, date)
    ensures r.Some? ==> forall k | 0 <= k < r.value :: Key(completions[k]) != (habitId, date)
    ensures r.None? <==> forall k | 0 <= k < |completions| :: Key(completions[k]) != (habitId, date)
  {
    if completions == [] then None
    else if Key(completions[0]) == (habitId, date) then Some(0)
    else match FindCompletion(completions[1..], habitId, date)
      case None => None
      case Some(i) => Some(i + 1)
  }

  /** The set of (habit, date) pairs the completions record. */
  function Pairs(completions: seq<Completion>): set<(int, string)>
  {
    set c | c in completions :: Key(c)
  }

  /** At most one completion per (habit, date) pair: the invariant the toggle keeps. */
  predicate UniquePairs(completions: seq<Completion>)
  {
    forall i, j | 0 <= i < j < |completions| :: Key(completions[i]) != Key(completions[j])
  }

  /** `completions.filter(c => c.habitId !== habitId)`: the cascade of a habit's deletion. */
  function WithoutCompletionsOf(completions: seq<Completion>, habitId: int): (r: seq<Completion>)
    ensures forall c :: c in r <==> c in completions && c.habitId != habitId
  {
    if completions == [] then []
    else if completions[0].habitId == habitId then WithoutCompletionsOf(completions[1..], habitId)
    else
      assert completions == [completions[0]] + completions[1..];
      [completions[0]] + WithoutCompletionsOf(completions[1..], habitId)
  }

  /** The kept completions stay in their order: the filter distributes over concatenation. */
  lemma {:induction false} WithoutCompletionsConcat(a: seq<Completion>, b: seq<Completion>, habitId: int)
    ensures WithoutCompletionsOf(a + b, habitId) == WithoutCompletionsOf(a, habitId) + WithoutCompletionsOf(b, habitId)
  {
    if a == [] {
      assert a + b == b;
    } else {
      assert (a + b)[1..] == a[1..] + b;
      WithoutCompletionsConcat(a[1..], b, habitId);
    }
  }

  /** `completions.filter(c => c.habitId === habitId).map(c => c.date)`. */
  function DatesOf(completions: seq<Completion>, habitId: int): (r: seq<string>)
    ensures forall d :: d in r <==> (habitId, d) in Pairs(completions)
  {
    if completions == [] then []
    else
      PairsCons(completions);
      var rest := DatesOf(completions[1..], habitId);
      if completions[0].habitId == habitId then [completions[0].date] + rest else rest
  }

  lemma PairsCons(completions: seq<Completion>)
    requires completions != []
    ensures Pairs(completions) == {Key(completions[0])} + Pairs(completions[1..])
  {
    assert completions == [completions[0]] + completions[1..];
  }

  lemma {:induction false} DatesOfConcat(a: seq<Completion>, b: seq<Completion>, habitId: int)
    ensures DatesOf(a + b, habitId) == DatesOf(a, habitId) + DatesOf(b, habitId)
  {
    if a == [] {
      assert a + b == b;
    } else {
      assert (a + b)[1..] == a[1..] + b;
      DatesOfConcat(a[1..], b, habitId);
    }
  }

  /** `habits.filter(h => h.userId === userId)`. */
  function OwnedBy(habits: seq<StoredHabit>, userId: int): (r: seq<StoredHabit>)
    ensures |r| <= |habits|
    ensures forall h :: h in r <==> h in habits && h.userId == userId
  {
    if habits == [] then []
    else
      assert habits == [habits[0]] + habits[1..];
      var rest := OwnedBy(habits[1..], userId);
      if habits[0].userId == userId then [habits[0]] + rest else rest
  }

  /** The filter keeps the user's habits in the order they are stored. */
  lemma {:induction false} OwnedByConcat(a: seq<StoredHabit>, b: seq<StoredHabit>, userId: int)
    ensures OwnedBy(a + b, userId) == OwnedBy(a, userId) + OwnedBy(b, userId)
  {
    if a == [] {
      assert a + b == b;
    } else {
      assert (a + b)[1..] == a[1..] + b;
      OwnedByConcat(a[1..], b, userId);
    }
  }

  /** A habit of the user appears in the filter; appending one of them appends it to the filter. */
  lemma OwnedByPush(habits: seq<StoredHabit>, h: StoredHabit, userId: int)
    ensures OwnedBy(habits + [h], userId) == if h.userId == userId then OwnedBy(habits, userId) + [h] else OwnedBy(habits, userId)
  {
    OwnedByConcat(habits, [h], userId);
    assert [h][1..] == [];
  }

  /** `userHabits.map(habit => ({...habit, completedDates}))`. */
  function WithDates(habits: seq<StoredHabit>, completions: seq<Completion>): (r: seq<HabitView>)
    ensures |r| == |habits|
    ensures forall k | 0 <= k < |r| :: r[k].habit == habits[k]
    ensures forall k | 0 <= k < |r| :: r[k].completedDates == DatesOf(completions, habits[k].id)
  {
    if habits == [] then []
    else [HabitView(habits[0], DatesOf(completions, habits[0].id))] + WithDates(habits[1..], completions)
  }

  // ----- the toggle -----

  /**
   * The edit `POST /api/habits/:id/toggle` makes on `completions`: splice out the first
   * completion of the pair, or push a new one with id `completions.length + 1`.
   */
  function Toggled(completions: seq<Completion>, habitId: int, date: string): seq<Completion>
  {
    match FindCompletion(completions, habitId, date)
    case Some(i) => RemoveAt(completions, i)
    case None => completions + [Completion(|completions| + 1, habitId, date)]
  }

  /** The answer's `completed` flag is true exactly when the pair was absent before. */
  lemma ToggleFlag(completions: seq<Completion>, habitId: int, date: string)
    ensures FindCompletion(completions, habitId, date).None? <==> (habitId, date) !in Pairs(completions)
  {
    if (habitId, date) in Pairs(completions) {
      var c :| c in completions && Key(c) == (habitId, date);
      var k :| 0 <= k < |completions| && completions[k] == c;
    }
  }

  lemma PairsOfRemoveAt(completions: seq<Completion>, i: nat)
    requires i < |completions| && UniquePairs(completions)
    ensures Pairs(RemoveAt(completions, i)) == Pairs(completions) - {Key(completions[i])}
    ensures UniquePairs(RemoveAt(completions, i))
  {
    var r := RemoveAt(completions, i);
    forall p | p in Pairs(completions) - {Key(completions[i])}
      ensures p in Pairs(r)
    {
      var c :| c in completions && Key(c) == p;
      var k :| 0 <= k < |completions| && completions[k] == c;
      assert k != i;
      assert r[if k < i then k else k - 1] == c;
    }
    forall p | p in Pairs(r)
      ensures p in Pairs(completions) - {Key(completions[i])}
    {
      var c :| c in r && Key(c) == p;
      var k :| 0 <= k < |r| && r[k] == c;
      var k' := if k < i then k else k + 1;
      assert completions[k'] == c && k' != i;
    }
    forall a, b | 0 <= a < b < |r|
      ensures Key(r[a]) != Key(r[b])
    {
      var a' := if a < i then a else a + 1;
      var b' := if b < i then b else b + 1;
      assert r[a] == completions[a'] && r[b] == completions[b'];
    }
  }

  lemma PairsOfPush(completions: seq<Completion>, c: Completion)
    requires UniquePairs(completions) && Key(c) !in Pairs(completions)
    ensures Pairs(completions + [c]) == Pairs(completions) + {Key(c)}
    ensures UniquePairs(completions + [c])
  {
    var r := completions + [c];
    forall a, b | 0 <= a < b < |r|
      ensures Key(r[a]) != Key(r[b])
    {
      if b == |completions| {
        assert r[a] in completions;
      }
    }
  }

  /**
   * On completions that keep their pairs unique, the toggle adds or removes exactly the
   * toggled pair and keeps the pairs unique.
   */
  lemma TogglePairs(completions: seq<Completion>, habitId: int, date: string)
    requires UniquePairs(completions)
    ensures UniquePairs(Toggled(completions, habitId, date))
    ensures (habitId, date) in Pairs(completions) ==>
      Pairs(Toggled(completions, habitId, date)) == Pairs(completions) - {(habitId, date)}
    ensures (habitId, date) !in Pairs(completions) ==>
      Pairs(Toggled(completions, habitId, date)) == Pairs(completions) + {(habitId, date)}
  {
    ToggleFlag(completions, habitId, date);
    match FindCompletion(completions, habitId, date)
    case Some(i) => PairsOfRemoveAt(completions, i);
    case None => PairsOfPush(completions, Completion(|completions| + 1, habitId, date));
  }

  /** Two toggles of the same pair restore the set of pairs. */
  lemma ToggleTwice(completions: seq<Completion>, habitId: int, date: string)
    requires UniquePairs(completions)
    ensures Pairs(Toggled(Toggled(completions, habitId, date), habitId, date)) == Pairs(completions)
  {
    TogglePairs(completions, habitId, date);
    TogglePairs(Toggled(completions, habitId, date), habitId, date);
  }

  /** Taking out the only completion of a pair takes its date out of the habit's dates. */
  lemma {:induction false} DatesOfRemoveAt(completions: seq<Completion>, i: nat, habitId: int)
    requires i < |completions| && completions[i].habitId == habitId
    requires forall k | 0 <= k < |completions| && k != i :: Key(completions[k]) != Key(completions[i])
    ensures DatesOf(RemoveAt(completions, i), habitId) == RemoveAll(DatesOf(completions, habitId), completions[i].date)
  {
    var c, rest := completions[0], completions[1..];
    var d := completions[i].date;
    if i == 0 {
      assert RemoveAt(completions, 0) == rest;
      forall k | 0 <= k < |rest| ensures Key(rest[k]) != (habitId, d) {
        assert rest[k] == completions[k + 1];
      }
      DatesWithout(rest, habitId, d);
      assert DatesOf(completions, habitId) == [d] + DatesOf(rest, habitId);
    } else {
      assert RemoveAt(completions, i) == [c] + RemoveAt(rest, i - 1);
      assert ([c] + RemoveAt(rest, i - 1))[1..] == RemoveAt(rest, i - 1);
      assert rest[i - 1] == completions[i];
      forall k | 0 <= k < |rest| && k != i - 1 ensures Key(rest[k]) != Key(rest[i - 1]) {
        assert rest[k] == completions[k + 1];
      }
      DatesOfRemoveAt(rest, i - 1, habitId);
      assert Key(c) != (habitId, d);
    }
  }

  lemma DatesWithout(completions: seq<Completion>, habitId: int, d: string)
    requires forall k | 0 <= k < |completions| :: Key(completions[k]) != (habitId, d)
    ensures d !in DatesOf(completions, habitId)
  {
  }

  /**
   * The client's update in `toggleDate` of app-backend.js, fed the answer's flag, turns the
   * habit's former dates into the dates the server now lists for it.
   */
  lemma ClientMirrorsToggle(completions: seq<Completion>, habitId: int, date: string)
    requires UniquePairs(completions)
    ensures DatesOf(Toggled(completions, habitId, date), habitId) ==
      BackendClient.ApplyCompletion(DatesOf(completions, habitId), date, FindCompletion(completions, habitId, date).None?)
  {
    match FindCompletion(completions, habitId, date)
    case Some(i) =>
      DatesOfRemoveAt(completions, i, habitId);
    case None =>
      var c := Completion(|completions| + 1, habitId, date);
      DatesOfConcat(completions, [c], habitId);
      assert DatesOf([c], habitId) == [date] by {
        assert [c][1..] == [];
      }
  }

  /** The toggle leaves the dates the server lists for every other habit as they were. */
  lemma ToggleOtherHabits(completions: seq<Completion>, habitId: int, date: string, other: int)
    requires other != habitId
    ensures DatesOf(Toggled(completions, habitId, date), other) == DatesOf(completions, other)
  {
    match FindCompletion(completions, habitId, date)
    case Some(i) =>
      var a, b := completions[..i], completions[i + 1..];
      assert completions == a + [completions[i]] + b;
      DatesOfConcat(a, b, other);
      DatesOfConcat(a + [completions[i]], b, other);
      DatesOfConcat(a, [completions[i]], other);
      assert DatesOf([completions[i]], other) == [] by {
        assert [completions[i]][1..] == [];
      }
    case None =>
      var c := Completion(|completions| + 1, habitId, date);
      DatesOfConcat(completions, [c], other);
      assert DatesOf([c], other) == [] by {
        assert [c][1..] == [];
      }
  }

  /** The cascade keeps the completion pairs unique. */
  lemma {:induction false} WithoutKeepsUnique(completions: seq<Completion>, habitId: int)
    requires UniquePairs(completions)
    ensures UniquePairs(WithoutCompletionsOf(completions, habitId))
  {
    if completions != [] {
      var c, rest := completions[0], completions[1..];
      assert UniquePairs(rest) by {
        forall a, b | 0 <= a < b < |rest| ensures Key(rest[a]) != Key(rest[b]) {
          assert rest[a] == completions[a + 1] && rest[b] == completions[b + 1];
        }
      }
      WithoutKeepsUnique(rest, habitId);
      if c.habitId != habitId {
        var r := WithoutCompletionsOf(rest, habitId);
        forall x | x in r ensures Key(x) != Key(c) {
          var k :| 0 <= k < |rest| && rest[k] == x;
          assert completions[k + 1] == x;
        }
        var s := [c] + r;
        forall a, b | 0 <= a < b < |s| ensures Key(s[a]) != Key(s[b]) {
          if a == 0 {
            assert s[b] in r;
          } else {
            assert s[a] == r[a - 1] && s[b] == r[b - 1];
          }
        }
      }
    }
  }

  /** After the cascade the deleted habit has no dates left and every other habit keeps its own. */
  lemma {:induction false} CascadeDates(completions: seq<Completion>, habitId: int, other: int)
    ensures DatesOf(WithoutCompletionsOf(completions, habitId), habitId) == []
    ensures other != habitId ==>
      DatesOf(WithoutCompletionsOf(completions, habitId), other) == DatesOf(completions, other)
  {
    if completions != [] {
      CascadeDates(completions[1..], habitId, other);
      var c, rest := completions[0], completions[1..];
      if c.habitId != habitId {
        var r := WithoutCompletionsOf(rest, habitId);
        assert ([c] + r)[1..] == r;
      }
    }
  }

  /**
   * Habit ids are `habits.length + 1`, so after a deletion the next habit can take the id of
   * one still stored: two habits then share id 2 and the toggle and the cascade treat them as one.
   */
  lemma HabitIdReuse(userId: int, created: string)
    ensures var before := [StoredHabit(1, userId, "Read", created), StoredHabit(2, userId, "Run", created)];
      var afterDelete := RemoveAt(before, 0);
      var afterCreate := afterDelete + [StoredHabit(|afterDelete| + 1, userId, "Walk", created)];
      afterCreate[0].id == afterCreate[1].id == 2
  {
  }

  // ----- the tables -----

  /** The module-level `data` object of server.js. */
  class Store {
    var users: seq<User>
    var habits: seq<StoredHabit>
    var completions: seq<Completion>

    /** `loadData()`: the tables as read from `data.json`. */
    constructor (users0: seq<User>, habits0: seq<StoredHabit>, completions0: seq<Completion>)
      ensures users == users0 && habits == habits0 && completions == completions0
    {
      users := users0;
      habits := habits0;
      completions := completions0;
    }

    /** The store's invariant: at most one completion per (habit, date) pair. */
    predicate Valid()
      reads this
    {
      UniquePairs(completions)
    }

    /**
     * `POST /api/register`. `passwordHash` stands for bcrypt's hash of the password and
     * `createdAt` for the clock. The new user's id is answered in `userId`.
     */
    method Register(username: Option<string>, email: Option<string>, password: Option<string>,
                    passwordHash: string, createdAt: string) returns (status: nat, userId: Option<int>)
      modifies this
      ensures habits == old(habits) && completions == old(completions)
      ensures Falsy(username) || Falsy(email) || Falsy(password) ==>
        status == 400 && users == old(users) && userId.None?
      ensures !(Falsy(username) || Falsy(email) || Falsy(password)) && |password.value| < MinPasswordLength ==>
        status == 400 && users == old(users) && userId.None?
      ensures (!(Falsy(username) || Falsy(email) || Falsy(password)) && |password.value| >= MinPasswordLength
        && Taken(old(users), email.value, username.value)) ==>
        status == 409 && users == old(users) && userId.None?
      ensures status == 200 <==>
        !(Falsy(username) || Falsy(email) || Falsy(password)) && |password.value| >= MinPasswordLength
        && !Taken(old(users), email.value, username.value)
      ensures status == 200 ==> (userId == Some(|old(users)| + 1) &&
        users == old(users) + [User(|old(users)| + 1, username.value, email.value, passwordHash, createdAt)])
    {
      if Falsy(username) || Falsy(email) || Falsy(password) {
        return 400, None;
      }
      if |password.value| < MinPasswordLength {
        return 400, None;
      }
      var k := 0;
      while k < |users|
        invariant 0 <= k <= |users|
        invariant forall j | 0 <= j < k :: !(users[j].email == email.value || users[j].username == username.value)
      {
        if users[k].email == email.value || users[k].username == username.value {
          return 409, None;
        }
        k := k + 1;
      }
      var id := |users| + 1;
      users := users + [User(id, username.value, email.value, passwordHash, createdAt)];
      return 200, Some(id);
    }

    /** `POST /api/habits` by the user `userId`; `createdAt` stands for the clock. */
    method CreateHabit(userId: int, name: Option<string>, createdAt: string) returns (status: nat, habit: Option<StoredHabit>)
      modifies this
      ensures users == old(users) && completions == old(completions)
      ensures status == 400 <==> Falsy(name) || Trim(name.value) == []
      ensures status == 400 ==> habits == old(habits) && habit.None?
      ensures status != 400 ==> (status == 200 &&
        habit == Some(StoredHabit(|old(habits)| + 1, userId, Trim(name.value), createdAt)) &&
        habits == old(habits) + [habit.value])
      ensures old(Valid()) ==> Valid()
    {
      if Falsy(name) || Trim(name.value) == [] {
        return 400, None;
      }
      var h := StoredHabit(|habits| + 1, userId, Trim(name.value), createdAt);
      habits := habits + [h];
      return 200, Some(h);
    }

    /** `DELETE /api/habits/:id` by the user `userId`; `idText` is the `:id` of the path. */
    method DeleteHabit(userId: int, idText: string) returns (status: nat)
      modifies this
      ensures users == old(users)
      ensures var found := FindOwned(old(habits), ParseInt(idText), userId);
        (found.None? ==> status == 404 && habits == old(habits) && completions == old(completions)) &&
        (found.Some? ==> (status == 200 && habits == RemoveAt(old(habits), found.value) &&
          completions == WithoutCompletionsOf(old(completions), ParseInt(idText).value)))
      ensures old(Valid()) ==> Valid()
    {
      var habitId := ParseInt(idText);
      var habitIndex := FindOwned(habits, habitId, userId);
      if habitIndex.None? {
        return 404;
      }
      if Valid() {
        WithoutKeepsUnique(completions, habitId.value);
      }
      habits := RemoveAt(habits, habitIndex.value);
      completions := WithoutCompletionsOf(completions, habitId.value);
      status := 200;
    }

    /**
     * `POST /api/habits/:id/toggle` by the user `userId`: 404 for a habit the user does not
     * own, otherwise the completion of `date` is removed or added and `completed` says which.
     */
    method Toggle(userId: int, idText: string, date: string) returns (status: nat, completed: Option<bool>)
      modifies this
      ensures users == old(users) && habits == old(habits)
      ensures FindOwned(old(habits), ParseInt(idText), userId).None? ==>
        status == 404 && completed.None? && completions == old(completions)
      ensures FindOwned(old(habits), ParseInt(idText), userId).Some? ==>
        var habitId := ParseInt(idText).value;
        status == 200 &&
        completed == Some((habitId, date) !in Pairs(old(completions))) &&
        completions == Toggled(old(completions), habitId, date)
      ensures old(Valid()) ==> Valid()
    {
      var habitId := ParseInt(idText);
      if FindOwned(habits, habitId, userId).None? {
        return 404, None;
      }
      ToggleFlag(completions, habitId.value, date);
      if Valid() {
        TogglePairs(completions, habitId.value, date);
      }
      var completionIndex := FindCompletion(completions, habitId.value, date);
      if completionIndex.Some? {
        completions := RemoveAt(completions, completionIndex.value);
        return 200, Some(false);
      }
      completions := completions + [Completion(|completions| + 1, habitId.value, date)];
      return 200, Some(true);
    }

    /** `GET /api/habits` for the user `userId`. */
    function ListHabits(userId: int): (r: seq<HabitView>)
      reads this
      ensures |r| == |OwnedBy(habits, userId)|
      ensures forall k | 0 <= k < |r| :: r[k].habit == OwnedBy(habits, userId)[k]
      ensures forall k | 0 <= k < |r| :: r[k].habit in habits && r[k].habit.userId == userId
      ensures forall k | 0 <= k < |r| :: r[k].completedDates == DatesOf(completions, r[k].habit.id)
      ensures forall k, d | 0 <= k < |r| :: d in r[k].completedDates <==> (r[k].habit.id, d) in Pairs(completions)
    {
      WithDates(OwnedBy(habits, userId), completions)
    }
  }
}
