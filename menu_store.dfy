/**
  * The menus and dishes tables behind MenuRepository and DishRepository: the
  * queries MenuService uses, written as functions over the stored rows, and
  * the two repositories as classes whose save and delete change the rows.
  */
module MenuStore {
  import opened Common
  import opened MenuEntity

  /** findById on the menus table. */
  function FindMenu(rows: seq<MenuRow>, id: int): (r: Option<MenuRow>)
    ensures r.Some? ==> r.value in rows && r.value.id == id
    ensures r.None? ==> forall k :: 0 <= k < |rows| ==> rows[k].id != id
  {
    if rows == [] then None
    else if rows[0].id == id then Some(rows[0])
    else
      var found := FindMenu(rows[1..], id);
      assert forall k :: 1 <= k < |rows| ==> rows[k] == rows[1..][k - 1];
      found
  }

  predicate UniqueMenuIds(rows: seq<MenuRow>)
  {
    forall i, j :: 0 <= i < j < |rows| ==> rows[i].id != rows[j].id
  }

  /** With unique ids, findById returns the one row carrying the id. */
  lemma {:induction false} FindMenuUnique(rows: seq<MenuRow>, k: int)
    requires UniqueMenuIds(rows) && 0 <= k < |rows|
    ensures FindMenu(rows, rows[k].id) == Some(rows[k])
  {
    if k > 0 {
      var rest := rows[1..];
      assert rest[k - 1] == rows[k];
      assert UniqueMenuIds(rest) by {
        forall i, j | 0 <= i < j < |rest| ensures rest[i].id != rest[j].id {
          assert rest[i] == rows[i + 1] && rest[j] == rows[j + 1];
        }
      }
      FindMenuUnique(rest, k - 1);
    }
  }

  /** existsByMenuTypeAndMenuDate */
  predicate ExistsByMenuTypeAndMenuDate(rows: seq<MenuRow>, menuType: MenuType, date: Day)
  {
    exists k :: 0 <= k < |rows| && rows[k].menuType == menuType && rows[k].menuDate == Some(date)
  }

  /** The menus table after save of a loaded menu: the row with the same id is overwritten. */
  function ReplaceMenu(rows: seq<MenuRow>, row: MenuRow): (r: seq<MenuRow>)
    ensures |r| == |rows|
    ensures forall k :: 0 <= k < |rows| ==> r[k] == if rows[k].id == row.id then row else rows[k]
  {
    if rows == [] then []
    else [if rows[0].id == row.id then row else rows[0]] + ReplaceMenu(rows[1..], row)
  }

  /** The menus table after delete: every row with that id is gone, the rest keep their order. */
  function WithoutMenuRow(rows: seq<MenuRow>, id: int): (r: seq<MenuRow>)
    ensures forall x :: x in r ==> x in rows && x.id != id
    ensures |r| <= |rows|
  {
    if rows == [] then []
    else if rows[0].id == id then WithoutMenuRow(rows[1..], id)
    else [rows[0]] + WithoutMenuRow(rows[1..], id)
  }

  /** Deleting a menu keeps every row with another id. */
  lemma {:induction false} WithoutMenuRowKeeps(rows: seq<MenuRow>, id: int, x: MenuRow)
    requires x in rows && x.id != id
    ensures x in WithoutMenuRow(rows, id)
  {
    if rows[0] != x {
      WithoutMenuRowKeeps(rows[1..], id, x);
    }
  }

  /** With unique ids, deleting an absent id changes nothing and deleting a present one removes one row. */
  lemma {:induction false} WithoutMenuRowCount(rows: seq<MenuRow>, id: int)
    requires UniqueMenuIds(rows)
    ensures FindMenu(rows, id).None? ==> WithoutMenuRow(rows, id) == rows
    ensures FindMenu(rows, id).Some? ==> |WithoutMenuRow(rows, id)| == |rows| - 1
  {
    if rows != [] {
      var rest := rows[1..];
      assert UniqueMenuIds(rest) by {
        forall i, j | 0 <= i < j < |rest| ensures rest[i].id != rest[j].id {
          assert rest[i] == rows[i + 1] && rest[j] == rows[j + 1];
        }
      }
      WithoutMenuRowCount(rest, id);
      if rows[0].id == id {
        assert forall k :: 0 <= k < |rest| ==> rest[k].id != id by {
          forall k | 0 <= k < |rest| ensures rest[k].id != id {
            assert rest[k] == rows[k + 1];
          }
        }
        assert rows == [rows[0]] + rest;
      } else {
        assert rows == [rows[0]] + rest;
      }
    }
  }

  /** The dishes of one menu, in table order: the menu's lazily loaded dish collection. */
  function DishesOf(rows: seq<Dish>, menuId: int): (r: seq<Dish>)
    ensures forall x :: x in r ==> x in rows && x.menuId == menuId
  {
    if rows == [] then []
    else if rows[0].menuId == menuId then [rows[0]] + DishesOf(rows[1..], menuId)
    else DishesOf(rows[1..], menuId)
  }

  /** deleteByMenuId: the dishes table without the menu's dishes, the rest in order. */
  function WithoutMenu(rows: seq<Dish>, menuId: int): (r: seq<Dish>)
    ensures forall x :: x in r ==> x in rows && x.menuId != menuId
  {
    if rows == [] then []
    else if rows[0].menuId == menuId then WithoutMenu(rows[1..], menuId)
    else [rows[0]] + WithoutMenu(rows[1..], menuId)
  }

  /** deleteByMenuId removes exactly the menu's dishes: together the two parts are the whole table. */
  lemma {:induction false} DeleteByMenuIdSplits(rows: seq<Dish>, menuId: int)
    ensures multiset(DishesOf(rows, menuId)) + multiset(WithoutMenu(rows, menuId)) == multiset(rows)
    ensures DishesOf(WithoutMenu(rows, menuId), menuId) == []
  {
    if rows != [] {
      DeleteByMenuIdSplits(rows[1..], menuId);
      assert rows == [rows[0]] + rows[1..];
    }
  }

  /** Dishes appended to the table come back among a menu's dishes exactly when they point at it. */
  lemma {:induction false} DishesOfAppend(rows: seq<Dish>, more: seq<Dish>, menuId: int)
    ensures DishesOf(rows + more, menuId) == DishesOf(rows, menuId) + DishesOf(more, menuId)
  {
    if rows != [] {
      var d := rows[0];
      assert (rows + more)[0] == d && (rows + more)[1..] == rows[1..] + more;
      DishesOfAppend(rows[1..], more, menuId);
      var a, b := DishesOf(rows[1..], menuId), DishesOf(more, menuId);
      if d.menuId == menuId {
        assert DishesOf(rows + more, menuId) == [d] + (a + b);
        assert [d] + (a + b) == ([d] + a) + b;
      } else {
        assert DishesOf(rows + more, menuId) == a + b;
      }
    } else {
      assert rows + more == more;
    }
  }

  predicate UniqueDishIds(rows: seq<Dish>)
  {
    forall i, j :: 0 <= i < j < |rows| ==> rows[i].id != rows[j].id
  }

  lemma {:induction false} WithoutMenuKeepsUniqueIds(rows: seq<Dish>, menuId: int)
    requires UniqueDishIds(rows)
    ensures UniqueDishIds(WithoutMenu(rows, menuId))
  {
    if rows != [] {
      var rest := rows[1..];
      assert UniqueDishIds(rest) by {
        forall i, j | 0 <= i < j < |rest| ensures rest[i].id != rest[j].id {
          assert rest[i] == rows[i + 1] && rest[j] == rows[j + 1];
        }
      }
      WithoutMenuKeepsUniqueIds(rest, menuId);
      if rows[0].menuId != menuId {
        forall k | 0 <= k < |rest| ensures rest[k].id != rows[0].id {
          assert rest[k] == rows[k + 1];
        }
        DishConsUnique(rows[0], rest, WithoutMenu(rest, menuId));
      }
    }
  }

  lemma DishConsUnique(d: Dish, rest: seq<Dish>, tail: seq<Dish>)
    requires UniqueDishIds(tail) && forall x :: x in tail ==> x in rest
    requires forall k :: 0 <= k < |rest| ==> rest[k].id != d.id
    ensures UniqueDishIds([d] + tail)
  {
    var r := [d] + tail;
    forall i, j | 0 <= i < j < |r| ensures r[i].id != r[j].id {
      assert r[j] == tail[j - 1] && r[j] in rest;
      if i > 0 {
        assert r[i] == tail[i - 1];
      } else {
        var k :| 0 <= k < |rest| && rest[k] == r[j];
      }
    }
  }

  /** The menus table; ids come from an IDENTITY column. */
  class MenuRepository {
    var rows: seq<MenuRow>
    var nextId: int

    predicate Valid()
      reads this
    {
      UniqueMenuIds(rows) && forall k :: 0 <= k < |rows| ==> rows[k].id < nextId
    }

    constructor ()
      ensures Valid() && rows == []
    {
      rows := [];
      nextId := 1;
    }

    /**
      * save on a Menu entity. A new menu runs the onCreate hook and is inserted
      * under the next id; a loaded menu runs onUpdate and overwrites its row.
      */
    method Save(menu: Menu, now: Instant)
      requires Valid()
      requires menu.id.Some? ==> FindMenu(rows, menu.id.value).Some?
      modifies this, menu
      ensures Valid()
      ensures old(menu.id).None? ==> menu.id == Some(old(nextId)) && nextId == old(nextId) + 1
      ensures old(menu.id).None? ==> menu.createdAt == now && menu.updatedAt == Some(now)
      ensures old(menu.id).None? ==>
        menu.menuDate == if menu.menuType == DAILY && old(menu.menuDate).None? then Some(DayOf(now)) else old(menu.menuDate)
      ensures old(menu.id).Some? ==> menu.id == old(menu.id) && nextId == old(nextId)
      ensures old(menu.id).Some? ==> menu.createdAt == old(menu.createdAt) && menu.updatedAt == Some(now)
      ensures old(menu.id).Some? ==> menu.menuDate == old(menu.menuDate)
      ensures old(menu.id).None? ==> rows == old(rows) + [menu.Row()]
      ensures old(menu.id).Some? ==> rows == ReplaceMenu(old(rows), menu.Row())
      ensures menu.name == old(menu.name) && menu.description == old(menu.description)
      ensures menu.menuType == old(menu.menuType) && menu.isActive == old(menu.isActive)
      ensures menu.dishes == old(menu.dishes)
    {
      if menu.id.None? {
        menu.OnCreate(now);
        menu.id := Some(nextId);
        rows := rows + [menu.Row()];
        nextId := nextId + 1;
      } else {
        menu.OnUpdate(now);
        rows := ReplaceMenu(rows, menu.Row());
      }
    }

    /** delete */
    method Delete(id: int)
      requires Valid()
      modifies this
      ensures Valid() && nextId == old(nextId)
      ensures rows == WithoutMenuRow(old(rows), id)
    {
      WithoutMenuRowKeepsUnique(rows, id);
      rows := WithoutMenuRow(rows, id);
    }
  }

  lemma {:induction false} WithoutMenuRowKeepsUnique(rows: seq<MenuRow>, id: int)
    requires UniqueMenuIds(rows)
    ensures UniqueMenuIds(WithoutMenuRow(rows, id))
  {
    if rows != [] {
      var rest := rows[1..];
      assert UniqueMenuIds(rest) by {
        forall i, j | 0 <= i < j < |rest| ensures rest[i].id != rest[j].id {
          assert rest[i] == rows[i + 1] && rest[j] == rows[j + 1];
        }
      }
      WithoutMenuRowKeepsUnique(rest, id);
      if rows[0].id != id {
        forall k | 0 <= k < |rest| ensures rest[k].id != rows[0].id {
          assert rest[k] == rows[k + 1];
        }
        MenuConsUnique(rows[0], rest, WithoutMenuRow(rest, id));
      }
    }
  }

  lemma MenuConsUnique(m: MenuRow, rest: seq<MenuRow>, tail: seq<MenuRow>)
    requires UniqueMenuIds(tail) && forall x :: x in tail ==> x in rest
    requires forall k :: 0 <= k < |rest| ==> rest[k].id != m.id
    ensures UniqueMenuIds([m] + tail)
  {
    var r := [m] + tail;
    forall i, j | 0 <= i < j < |r| ensures r[i].id != r[j].id {
      assert r[j] == tail[j - 1] && r[j] in rest;
      if i > 0 {
        assert r[i] == tail[i - 1];
      } else {
        var k :| 0 <= k < |rest| && rest[k] == r[j];
      }
    }
  }

  /** The dishes table; ids come from an IDENTITY column. */
  class DishRepository {
    var rows: seq<Dish>
    var nextId: int

    predicate Valid()
      reads this
    {
      UniqueDishIds(rows) && forall k :: 0 <= k < |rows| ==> rows[k].id < nextId
    }

    constructor ()
      ensures Valid() && rows == []
    {
      rows := [];
      nextId := 1;
    }

    /** save of a new dish: it is stored under the next id. */
    method Save(dish: Dish) returns (saved: Dish)
      requires Valid()
      modifies this
      ensures Valid()
      ensures saved == dish.(id := old(nextId)) && nextId == old(nextId) + 1
      ensures rows == old(rows) + [saved]
    {
      saved := dish.(id := nextId);
      rows := rows + [saved];
      nextId := nextId + 1;
    }

    /** deleteByMenuId: a bulk delete of the menu's dishes. */
    method DeleteByMenuId(menuId: int)
      requires Valid()
      modifies this
      ensures Valid() && nextId == old(nextId)
      ensures rows == WithoutMenu(old(rows), menuId)
    {
      WithoutMenuKeepsUniqueIds(rows, menuId);
      rows := WithoutMenu(rows, menuId);
    }
  }
}
