/**
  * The order in which a menu lists its dishes: by displayOrder ascending with
  * missing orders last, then by name in String.compareTo order. The sort is
  * the stable sort of a Java stream, modelled as an insertion sort.
  */
module DishOrdering {
  import opened Common
  import opened MenuEntity

  /** String.compareTo(a, b) <= 0: a is a prefix of b or is smaller at the first difference. */
  predicate NameLe(a: string, b: string)
  {
    if a == [] then true
    else if b == [] then false
    else if a[0] != b[0] then a[0] < b[0]
    else NameLe(a[1..], b[1..])
  }

  lemma {:induction false} NameLeTotal(a: string, b: string)
    ensures NameLe(a, b) || NameLe(b, a)
  {
    if a != [] && b != [] && a[0] == b[0] {
      NameLeTotal(a[1..], b[1..]);
    }
  }

  lemma {:induction false} NameLeAntisymmetric(a: string, b: string)
    requires NameLe(a, b) && NameLe(b, a)
    ensures a == b
  {
    if a != [] && b != [] {
      NameLeAntisymmetric(a[1..], b[1..]);
      assert a == [a[0]] + a[1..] && b == [b[0]] + b[1..];
    }
  }

  lemma {:induction false} NameLeTransitive(a: string, b: string, c: string)
    requires NameLe(a, b) && NameLe(b, c)
    ensures NameLe(a, c)
  {
    if a != [] && b != [] && c != [] && a[0] == b[0] && b[0] == c[0] {
      NameLeTransitive(a[1..], b[1..], c[1..]);
    }
  }

  /**
    * Comparator.comparing(displayOrder, nullsLast(naturalOrder())) followed by
    * thenComparing(name), as "not greater than" on the two sort keys.
    */
  predicate KeyLe(order1: Option<int>, name1: string, order2: Option<int>, name2: string)
  {
    match (order1, order2)
    case (Some(x), Some(y)) => x < y || (x == y && NameLe(name1, name2))
    case (Some(_), None) => true
    case (None, Some(_)) => false
    case (None, None) => NameLe(name1, name2)
  }

  predicate DishLe(a: Dish, b: Dish)
  {
    KeyLe(a.displayOrder, a.name, b.displayOrder, b.name)
  }

  /** The comparator is a total preorder: any two dishes compare, and comparisons chain. */
  lemma DishLeTotal(a: Dish, b: Dish)
    ensures DishLe(a, b) || DishLe(b, a)
  {
    NameLeTotal(a.name, b.name);
  }

  lemma DishLeTransitive(a: Dish, b: Dish, c: Dish)
    requires DishLe(a, b) && DishLe(b, c)
    ensures DishLe(a, c)
  {
    if NameLe(a.name, b.name) && NameLe(b.name, c.name) {
      NameLeTransitive(a.name, b.name, c.name);
    }
  }

  /** Two dishes that compare equal in both directions have the same order and the same name. */
  lemma DishLeTiesShareKey(a: Dish, b: Dish)
    requires DishLe(a, b) && DishLe(b, a)
    ensures a.displayOrder == b.displayOrder && a.name == b.name
  {
    if a.name != b.name && NameLe(a.name, b.name) && NameLe(b.name, a.name) {
      NameLeAntisymmetric(a.name, b.name);
    }
  }

  /** Each dish is no greater than the next one. */
  predicate Sorted(s: seq<Dish>)
  {
    forall i :: 0 < i < |s| ==> DishLe(s[i - 1], s[i])
  }

  /** Insert x before the first dish it does not exceed, so that x follows the dishes it ties with only if they already preceded it. */
  function Insert(x: Dish, s: seq<Dish>): (r: seq<Dish>)
    requires Sorted(s)
    ensures Sorted(r)
    ensures multiset(r) == multiset(s) + multiset{x}
    ensures |r| == |s| + 1
    ensures r[0] == x || (s != [] && r[0] == s[0])
  {
    if s == [] || DishLe(x, s[0]) then
      [x] + s
    else
      DishLeTotal(x, s[0]);
      var rest := Insert(x, s[1..]);
      assert s == [s[0]] + s[1..];
      [s[0]] + rest
  }

  /** The dishes as convertToResponseDTO lists them. */
  function SortDishes(s: seq<Dish>): (r: seq<Dish>)
    ensures Sorted(r)
    ensures multiset(r) == multiset(s)
    ensures |r| == |s|
  {
    if s == [] then []
    else
      assert s == [s[0]] + s[1..];
      Insert(s[0], SortDishes(s[1..]))
  }

  /** Sorted on neighbours means sorted on every pair. */
  lemma {:induction false} SortedPairwise(s: seq<Dish>, i: int, j: int)
    requires Sorted(s) && 0 <= i <= j < |s|
    ensures DishLe(s[i], s[j])
    decreases j - i
  {
    if i == j {
      DishLeTotal(s[i], s[i]);
    } else {
      SortedPairwise(s, i + 1, j);
      DishLeTransitive(s[i], s[i + 1], s[j]);
    }
  }

  /** Two dishes the comparator cannot tell apart. */
  predicate Tie(a: Dish, b: Dish)
  {
    DishLe(a, b) && DishLe(b, a)
  }

  /** The dishes of s that tie with x, in the order s lists them. */
  function TiesWith(s: seq<Dish>, x: Dish): seq<Dish>
  {
    if s == [] then [] else (if Tie(s[0], x) then [s[0]] else []) + TiesWith(s[1..], x)
  }

  /** Insert puts x ahead of every dish it ties with. */
  lemma {:induction false} InsertTies(y: Dish, t: seq<Dish>, x: Dish)
    requires Sorted(t)
    ensures TiesWith(Insert(y, t), x) == (if Tie(y, x) then [y] else []) + TiesWith(t, x)
  {
    if t == [] || DishLe(y, t[0]) {
      assert ([y] + t)[1..] == t;
    } else {
      DishLeTotal(y, t[0]);
      if Tie(y, x) && Tie(t[0], x) {
        DishLeTransitive(y, x, t[0]);
      }
      var rest := Insert(y, t[1..]);
      assert ([t[0]] + rest)[1..] == rest;
      InsertTies(y, t[1..], x);
    }
  }

  /** The sort is stable: dishes that tie keep the order they had in the input. */
  lemma {:induction false} SortIsStable(s: seq<Dish>, x: Dish)
    ensures TiesWith(SortDishes(s), x) == TiesWith(s, x)
  {
    if s != [] {
      SortIsStable(s[1..], x);
      InsertTies(s[0], SortDishes(s[1..]), x);
    }
  }

  /** A list that is already in order is listed as it is. */
  lemma {:induction false} SortKeepsSorted(s: seq<Dish>)
    requires Sorted(s)
    ensures SortDishes(s) == s
  {
    if s != [] {
      assert Sorted(s[1..]) by {
        forall i | 0 < i < |s[1..]| ensures DishLe(s[1..][i - 1], s[1..][i]) {
          assert s[1..][i - 1] == s[i] && s[1..][i] == s[i + 1];
        }
      }
      SortKeepsSorted(s[1..]);
      if |s| > 1 {
        assert DishLe(s[0], s[1]);
      }
    }
  }

  /** Dishes with a display order come before every dish without one. */
  lemma OrderedDishesFirst(s: seq<Dish>, i: int, j: int)
    requires Sorted(s) && 0 <= i < |s| && 0 <= j < |s|
    requires s[i].displayOrder.Some? && s[j].displayOrder.None?
    ensures i < j
  {
    if j <= i {
      SortedPairwise(s, j, i);
    }
  }

  function ExampleDish(id: int, name: string, category: DishCategory, order: Option<int>, menuId: int): Dish
  {
    Dish(id, name, None, None, category, None, true, order, menuId)
  }

  /** A dish without an order goes after one with an order. */
  lemma SortExampleTail(m: int)
    ensures var bruschetta := ExampleDish(2, "Bruschetta", ANTIPASTI, None, m);
            var gnocchi := ExampleDish(3, "Gnocchi", PRIMI, Some(2), m);
            SortDishes([bruschetta, gnocchi]) == [gnocchi, bruschetta]
  {
    var bruschetta := ExampleDish(2, "Bruschetta", ANTIPASTI, None, m);
    var gnocchi := ExampleDish(3, "Gnocchi", PRIMI, Some(2), m);
    assert [bruschetta, gnocchi][1..] == [gnocchi];
    assert SortDishes([gnocchi]) == [gnocchi];
  }

  /** On a tie in order the name decides. */
  lemma InsertExample(m: int)
    ensures var pasta := ExampleDish(1, "Pasta", PRIMI, Some(2), m);
            var bruschetta := ExampleDish(2, "Bruschetta", ANTIPASTI, None, m);
            var gnocchi := ExampleDish(3, "Gnocchi", PRIMI, Some(2), m);
            Sorted([gnocchi, bruschetta]) && Insert(pasta, [gnocchi, bruschetta]) == [gnocchi, pasta, bruschetta]
  {
    var pasta := ExampleDish(1, "Pasta", PRIMI, Some(2), m);
    var bruschetta := ExampleDish(2, "Bruschetta", ANTIPASTI, None, m);
    var gnocchi := ExampleDish(3, "Gnocchi", PRIMI, Some(2), m);
    assert !NameLe("Pasta", "Gnocchi");
    assert [gnocchi, bruschetta][1..] == [bruschetta];
  }

  /**
    * The ordering on an example: the tie on order 2 is broken by name
    * ("Gnocchi" before "Pasta") and the dish without an order goes last.
    */
  lemma SortExample(m: int)
    ensures var pasta := ExampleDish(1, "Pasta", PRIMI, Some(2), m);
            var bruschetta := ExampleDish(2, "Bruschetta", ANTIPASTI, None, m);
            var gnocchi := ExampleDish(3, "Gnocchi", PRIMI, Some(2), m);
            SortDishes([pasta, bruschetta, gnocchi]) == [gnocchi, pasta, bruschetta]
  {
    var pasta := ExampleDish(1, "Pasta", PRIMI, Some(2), m);
    var bruschetta := ExampleDish(2, "Bruschetta", ANTIPASTI, None, m);
    var gnocchi := ExampleDish(3, "Gnocchi", PRIMI, Some(2), m);
    SortExampleTail(m);
    InsertExample(m);
    assert [pasta, bruschetta, gnocchi][1..] == [bruschetta, gnocchi];
  }
}
