/**
  * MenuService: request validation, the daily-menu structure rule, and the
  * admin operations that create, update, delete, toggle and duplicate menus
  * over the menus and dishes tables, with the dish list of every response
  * in display order.
  */
module MenuService {
  import opened Common
  import opened MenuEntity
  import opened MenuStore
  import opened DishOrdering

  /** DishRequestDTO. The category is taken as present. */
  datatype DishRequest = DishRequest(
    name: string,
    description: Option<string>,
    ingredients: Option<string>,
    category: DishCategory,
    price: Option<int>,
    isAvailable: Option<bool>,
    displayOrder: Option<int>)

  /** MenuRequestDTO, with the isActive component the service reads. */
  datatype MenuRequest = MenuRequest(
    name: Option<string>,
    description: Option<string>,
    menuType: Option<MenuType>,
    menuDate: Option<Day>,
    dishes: Option<seq<DishRequest>>,
    isActive: Option<bool>)

  datatype MenuError =
    | InvalidName
    | MissingMenuType
    | NoDishes
    | WrongPrimiCount
    | WrongSecondiCount
    | WrongContorniCount
    | DailyMenuExists(date: Day)
    | MenuNotFound
    | NullIsActive

  datatype DishResponse = DishResponse(
    id: int,
    name: string,
    description: Option<string>,
    ingredients: Option<string>,
    category: DishCategory,
    price: Option<int>,
    isAvailable: bool,
    displayOrder: Option<int>)

  datatype MenuResponse = MenuResponse(
    id: int,
    name: string,
    description: Option<string>,
    menuType: MenuType,
    menuDate: Option<Day>,
    isActive: bool,
    createdAt: Instant,
    updatedAt: Option<Instant>,
    dishes: seq<DishResponse>)

  // ---------------------------------------------------------------------
  // Validation
  // ---------------------------------------------------------------------

  /** The number of requested dishes in a category (the stream filter and count). */
  function CountCategory(dishes: seq<DishRequest>, category: DishCategory): nat
  {
    if dishes == [] then 0
    else CountCategory(dishes[..|dishes| - 1], category) + (if dishes[|dishes| - 1].category == category then 1 else 0)
  }

  predicate HasDailyStructure(dishes: seq<DishRequest>)
  {
    CountCategory(dishes, PRIMI) == 3 && CountCategory(dishes, SECONDI) == 3 && CountCategory(dishes, CONTORNI) == 3
  }

  /** validateDailyMenuStructure: primi, then secondi, then contorni must number exactly three. */
  function ValidateDailyMenuStructure(dishes: seq<DishRequest>): (r: Option<MenuError>)
    ensures r.None? <==> HasDailyStructure(dishes)
    ensures r == Some(WrongPrimiCount) <==> CountCategory(dishes, PRIMI) != 3
    ensures r == Some(WrongSecondiCount) <==> CountCategory(dishes, PRIMI) == 3 && CountCategory(dishes, SECONDI) != 3
    ensures r.Some? ==> r.value in {WrongPrimiCount, WrongSecondiCount, WrongContorniCount}
  {
    if CountCategory(dishes, PRIMI) != 3 then Some(WrongPrimiCount)
    else if CountCategory(dishes, SECONDI) != 3 then Some(WrongSecondiCount)
    else if CountCategory(dishes, CONTORNI) != 3 then Some(WrongContorniCount)
    else None
  }

  predicate ValidName(name: Option<string>)
  {
    name.Some? && |Trim(name.value)| >= 3
  }

  /** A request validateMenuRequest lets through. */
  predicate ValidRequest(request: MenuRequest)
  {
    ValidName(request.name) && request.menuType.Some? && request.dishes.Some? && request.dishes.value != []
    && (request.menuType.value == DAILY ==> HasDailyStructure(request.dishes.value))
  }

  /**
    * validateMenuRequest: name, then type, then a non-empty dish list, then
    * the daily structure for a DAILY menu; the first failure is reported.
    */
  function ValidateMenuRequest(request: MenuRequest): (r: Option<MenuError>)
    ensures r.None? <==> ValidRequest(request)
    ensures r == Some(InvalidName) <==> !ValidName(request.name)
    ensures r == Some(MissingMenuType) <==> ValidName(request.name) && request.menuType.None?
    ensures r == Some(NoDishes) <==>
      ValidName(request.name) && request.menuType.Some? && (request.dishes.None? || request.dishes.value == [])
    ensures r.Some? && r.value in {WrongPrimiCount, WrongSecondiCount, WrongContorniCount} ==>
      request.menuType == Some(DAILY) && r == ValidateDailyMenuStructure(request.dishes.value)
  {
    if !ValidName(request.name) then Some(InvalidName)
    else if request.menuType.None? then Some(MissingMenuType)
    else if request.dishes.None? || request.dishes.value == [] then Some(NoDishes)
    else if request.menuType.value == DAILY then ValidateDailyMenuStructure(request.dishes.value)
    else None
  }

  /** The per-category counts add up to the number of dishes. */
  lemma {:induction false} CategoryCountsSum(dishes: seq<DishRequest>)
    ensures CountCategory(dishes, ANTIPASTI) + CountCategory(dishes, PRIMI) + CountCategory(dishes, SECONDI)
          + CountCategory(dishes, CONTORNI) + CountCategory(dishes, DOLCI) == |dishes|
  {
    if dishes != [] {
      CategoryCountsSum(dishes[..|dishes| - 1]);
    }
  }

  /** A valid DAILY request has at least nine dishes, and as many as that only without antipasti or dolci. */
  lemma ValidDailyMenuSize(request: MenuRequest)
    requires ValidRequest(request) && request.menuType == Some(DAILY)
    ensures |request.dishes.value| >= 9
    ensures |request.dishes.value| == 9 <==>
      CountCategory(request.dishes.value, ANTIPASTI) == 0 && CountCategory(request.dishes.value, DOLCI) == 0
  {
    CategoryCountsSum(request.dishes.value);
  }

  /** Appending a dish to a list changes only the count of that dish's category, by one. */
  lemma CountCategoryAppend(dishes: seq<DishRequest>, d: DishRequest, category: DishCategory)
    ensures CountCategory(dishes + [d], category) == CountCategory(dishes, category) + (if d.category == category then 1 else 0)
  {
    assert (dishes + [d])[..|dishes|] == dishes;
  }

  /** Antipasti and dolci are unconstrained: adding one keeps a daily menu valid, adding a primo breaks it. */
  lemma DailyStructureIgnoresAntipastiAndDolci(dishes: seq<DishRequest>, d: DishRequest)
    requires HasDailyStructure(dishes)
    ensures d.category in {ANTIPASTI, DOLCI} ==> HasDailyStructure(dishes + [d])
    ensures d.category in {PRIMI, SECONDI, CONTORNI} ==> !HasDailyStructure(dishes + [d])
  {
    CountCategoryAppend(dishes, d, PRIMI);
    CountCategoryAppend(dishes, d, SECONDI);
    CountCategoryAppend(dishes, d, CONTORNI);
  }

  /** A SEASONAL request is judged without looking at the categories of its dishes. */
  lemma SeasonalSkipsStructure(request: MenuRequest, other: seq<DishRequest>)
    requires request.menuType == Some(SEASONAL) && request.dishes.Some? && request.dishes.value != [] && other != []
    ensures ValidateMenuRequest(request) == ValidateMenuRequest(request.(dishes := Some(other)))
    ensures ValidateMenuRequest(request).None? <==> ValidName(request.name)
  {
  }

  // ---------------------------------------------------------------------
  // Dishes built from a request or copied from another menu
  // ---------------------------------------------------------------------

  /** The Dish built for one request: isAvailable defaults to true, the dish belongs to the menu. */
  function DishFromRequest(request: DishRequest, id: int, menuId: int): Dish
  {
    Dish(id, request.name, request.description, request.ingredients, request.category, request.price,
         request.isAvailable.GetOr(true), request.displayOrder, menuId)
  }

  /** The dishes createDishesFromRequest saves, numbered from firstId in request order. */
  function BuildDishes(requests: seq<DishRequest>, firstId: int, menuId: int): (r: seq<Dish>)
    ensures |r| == |requests|
    ensures forall i :: 0 <= i < |r| ==> r[i] == DishFromRequest(requests[i], firstId + i, menuId)
  {
    if requests == [] then []
    else
      var n := |requests| - 1;
      BuildDishes(requests[..n], firstId, menuId) + [DishFromRequest(requests[n], firstId + n, menuId)]
  }

  /** The copy of a dish duplicateMenu saves: every field but the id and the menu. */
  function CopyDish(d: Dish, id: int, menuId: int): Dish
  {
    d.(id := id, menuId := menuId)
  }

  function CopyDishes(originals: seq<Dish>, firstId: int, menuId: int): (r: seq<Dish>)
    ensures |r| == |originals|
    ensures forall i :: 0 <= i < |r| ==> r[i] == CopyDish(originals[i], firstId + i, menuId)
  {
    if originals == [] then []
    else
      var n := |originals| - 1;
      CopyDishes(originals[..n], firstId, menuId) + [CopyDish(originals[n], firstId + n, menuId)]
  }

  /** The number of stored dishes in a category. */
  function CountDishCategory(dishes: seq<Dish>, category: DishCategory): nat
  {
    if dishes == [] then 0
    else CountDishCategory(dishes[..|dishes| - 1], category) + (if dishes[|dishes| - 1].category == category then 1 else 0)
  }

  /** The stored dishes have the categories that were asked for, so a created daily menu keeps 3/3/3. */
  lemma {:induction false} BuildDishesKeepsCategories(requests: seq<DishRequest>, firstId: int, menuId: int, category: DishCategory)
    ensures CountDishCategory(BuildDishes(requests, firstId, menuId), category) == CountCategory(requests, category)
  {
    if requests != [] {
      var n := |requests| - 1;
      var built := BuildDishes(requests, firstId, menuId);
      assert built[..n] == BuildDishes(requests[..n], firstId, menuId);
      BuildDishesKeepsCategories(requests[..n], firstId, menuId, category);
    }
  }

  /** A copy keeps the categories of the original dishes. */
  lemma {:induction false} CopyDishesKeepsCategories(originals: seq<Dish>, firstId: int, menuId: int, category: DishCategory)
    ensures CountDishCategory(CopyDishes(originals, firstId, menuId), category) == CountDishCategory(originals, category)
  {
    if originals != [] {
      var n := |originals| - 1;
      var copied := CopyDishes(originals, firstId, menuId);
      assert copied[..n] == CopyDishes(originals[..n], firstId, menuId);
      CopyDishesKeepsCategories(originals[..n], firstId, menuId, category);
    }
  }

  /** A list whose dishes all belong to one menu is that menu's whole list, and no other menu's. */
  lemma {:induction false} DishesOfOwnList(s: seq<Dish>, menuId: int, other: int)
    requires forall i :: 0 <= i < |s| ==> s[i].menuId == menuId
    requires other != menuId
    ensures DishesOf(s, menuId) == s
    ensures DishesOf(s, other) == []
    ensures WithoutMenu(s, other) == s
  {
    if s != [] {
      DishesOfOwnList(s[1..], menuId, other);
      assert s == [s[0]] + s[1..];
    }
  }

  /** Removing one menu's dishes leaves every other menu's dish list as it was. */
  lemma {:induction false} WithoutMenuKeepsOtherMenus(rows: seq<Dish>, menuId: int, other: int)
    requires other != menuId
    ensures DishesOf(WithoutMenu(rows, menuId), other) == DishesOf(rows, other)
  {
    if rows != [] {
      WithoutMenuKeepsOtherMenus(rows[1..], menuId, other);
    }
  }

  // ---------------------------------------------------------------------
  // Responses
  // ---------------------------------------------------------------------

  function DishToResponse(d: Dish): DishResponse
  {
    DishResponse(d.id, d.name, d.description, d.ingredients, d.category, d.price, d.isAvailable, d.displayOrder)
  }

  function DishResponses(dishes: seq<Dish>): (r: seq<DishResponse>)
    ensures |r| == |dishes|
    ensures forall i :: 0 <= i < |r| ==> r[i] == DishToResponse(dishes[i])
  {
    if dishes == [] then [] else [DishToResponse(dishes[0])] + DishResponses(dishes[1..])
  }

  /** Response dishes in the comparator's order. */
  predicate ResponsesSorted(dishes: seq<DishResponse>)
  {
    forall i :: 0 < i < |dishes| ==>
      KeyLe(dishes[i - 1].displayOrder, dishes[i - 1].name, dishes[i].displayOrder, dishes[i].name)
  }

  lemma {:induction false} InsertResponses(x: Dish, s: seq<Dish>)
    requires Sorted(s)
    ensures multiset(DishResponses(Insert(x, s))) == multiset(DishResponses(s)) + multiset{DishToResponse(x)}
  {
    if s == [] || DishLe(x, s[0]) {
    } else {
      InsertResponses(x, s[1..]);
      assert DishResponses(s) == [DishToResponse(s[0])] + DishResponses(s[1..]);
    }
  }

  lemma {:induction false} SortResponses(s: seq<Dish>)
    ensures multiset(DishResponses(SortDishes(s))) == multiset(DishResponses(s))
  {
    if s != [] {
      SortResponses(s[1..]);
      InsertResponses(s[0], SortDishes(s[1..]));
    }
  }

  /** convertToResponseDTO: the menu's fields, and its dishes sorted by the comparator and converted. */
  function ConvertToResponseDTO(row: MenuRow, dishes: seq<Dish>): MenuResponse
  {
    MenuResponse(row.id, row.name, row.description, row.menuType, row.menuDate, row.isActive,
                 row.createdAt, row.updatedAt, DishResponses(SortDishes(dishes)))
  }

  /**
    * The response carries the menu's fields, and lists the menu's dishes,
    * each converted once, in display order.
    */
  lemma ResponseListsDishesInOrder(row: MenuRow, dishes: seq<Dish>)
    ensures var r := ConvertToResponseDTO(row, dishes);
            && r.id == row.id && r.name == row.name && r.description == row.description
            && r.menuType == row.menuType && r.menuDate == row.menuDate && r.isActive == row.isActive
            && r.createdAt == row.createdAt && r.updatedAt == row.updatedAt
            && ResponsesSorted(r.dishes)
            && multiset(r.dishes) == multiset(DishResponses(dishes))
  {
    SortResponses(dishes);
  }

  // ---------------------------------------------------------------------
  // Store invariants
  // ---------------------------------------------------------------------

  /** Every dish points at a stored menu (the fk_dish_menu foreign key). */
  predicate DishesLinked(menuRows: seq<MenuRow>, dishRows: seq<Dish>)
  {
    forall x :: x in dishRows ==> FindMenu(menuRows, x.menuId).Some?
  }

  /** At most one DAILY menu per date. */
  predicate OneDailyPerDate(menuRows: seq<MenuRow>)
  {
    forall i, j ::
      (0 <= i < j < |menuRows| && menuRows[i].menuType == DAILY && menuRows[j].menuType == DAILY
       && menuRows[i].menuDate.Some?) ==> menuRows[i].menuDate != menuRows[j].menuDate
  }

  lemma LinkedAfterMenuAppend(menuRows: seq<MenuRow>, dishRows: seq<Dish>, row: MenuRow)
    requires DishesLinked(menuRows, dishRows)
    ensures DishesLinked(menuRows + [row], dishRows)
  {
    forall x | x in dishRows ensures FindMenu(menuRows + [row], x.menuId).Some? {
      var found := FindMenu(menuRows, x.menuId).value;
      var k :| 0 <= k < |menuRows| && menuRows[k] == found;
      assert (menuRows + [row])[k] == found;
    }
  }

  lemma LinkedAfterDishAppend(menuRows: seq<MenuRow>, dishRows: seq<Dish>, more: seq<Dish>, menuId: int)
    requires DishesLinked(menuRows, dishRows) && FindMenu(menuRows, menuId).Some?
    requires forall i :: 0 <= i < |more| ==> more[i].menuId == menuId
    ensures DishesLinked(menuRows, dishRows + more)
  {
  }

  lemma LinkedAfterReplace(menuRows: seq<MenuRow>, dishRows: seq<Dish>, row: MenuRow)
    requires DishesLinked(menuRows, dishRows)
    ensures DishesLinked(ReplaceMenu(menuRows, row), dishRows)
  {
    var replaced := ReplaceMenu(menuRows, row);
    forall x | x in dishRows ensures FindMenu(replaced, x.menuId).Some? {
      var found := FindMenu(menuRows, x.menuId).value;
      var k :| 0 <= k < |menuRows| && menuRows[k] == found;
      assert replaced[k].id == x.menuId;
    }
  }

  lemma LinkedAfterDelete(menuRows: seq<MenuRow>, dishRows: seq<Dish>, id: int)
    requires DishesLinked(menuRows, dishRows)
    ensures DishesLinked(WithoutMenuRow(menuRows, id), WithoutMenu(dishRows, id))
  {
    var kept := WithoutMenuRow(menuRows, id);
    forall x | x in WithoutMenu(dishRows, id) ensures FindMenu(kept, x.menuId).Some? {
      var found := FindMenu(menuRows, x.menuId).value;
      WithoutMenuRowKeeps(menuRows, id, found);
      var k :| 0 <= k < |kept| && kept[k] == found;
    }
  }

  /** Deleting dishes keeps every remaining dish pointing at a stored menu. */
  lemma LinkedAfterDishDelete(menuRows: seq<MenuRow>, dishRows: seq<Dish>, menuId: int)
    requires DishesLinked(menuRows, dishRows)
    ensures DishesLinked(menuRows, WithoutMenu(dishRows, menuId))
  {
  }

  /** Dishes appended for one menu extend that menu's list and leave every other list alone. */
  lemma AppendedDishesOf(before: seq<Dish>, created: seq<Dish>, menuId: int)
    requires forall i :: 0 <= i < |created| ==> created[i].menuId == menuId
    ensures DishesOf(before + created, menuId) == DishesOf(before, menuId) + created
    ensures forall other :: other != menuId ==> DishesOf(before + created, other) == DishesOf(before, other)
  {
    DishesOfAppend(before, created, menuId);
    DishesOfOwnList(created, menuId, menuId + 1);
    forall other | other != menuId ensures DishesOf(before + created, other) == DishesOf(before, other) {
      DishesOfAppend(before, created, other);
      DishesOfOwnList(created, menuId, other);
    }
  }

  /** A menu id never handed out yet owns no dish. */
  lemma FreshMenuHasNoDishes(menuRows: seq<MenuRow>, dishRows: seq<Dish>, unused: int)
    requires DishesLinked(menuRows, dishRows)
    requires forall k :: 0 <= k < |menuRows| ==> menuRows[k].id < unused
    ensures DishesOf(dishRows, unused) == []
  {
    forall x | x in dishRows ensures x.menuId != unused {
      var found := FindMenu(menuRows, x.menuId).value;
      var k :| 0 <= k < |menuRows| && menuRows[k] == found;
    }
    var mine := DishesOf(dishRows, unused);
    assert forall x :: x in mine ==> x in dishRows && x.menuId == unused;
  }

  /** A date given in the request is checked, so create keeps one DAILY menu per date. */
  lemma DatedCreateKeepsOneDailyPerDate(menuRows: seq<MenuRow>, row: MenuRow)
    requires OneDailyPerDate(menuRows)
    requires row.menuType == DAILY && row.menuDate.Some?
    requires !ExistsByMenuTypeAndMenuDate(menuRows, DAILY, row.menuDate.value)
    ensures OneDailyPerDate(menuRows + [row])
  {
    var rows := menuRows + [row];
    forall i, j | 0 <= i < j < |rows| && rows[i].menuType == DAILY && rows[j].menuType == DAILY && rows[i].menuDate.Some?
      ensures rows[i].menuDate != rows[j].menuDate
    {
      if j == |menuRows| {
        assert rows[i] == menuRows[i];
      } else {
        assert rows[i] == menuRows[i] && rows[j] == menuRows[j];
      }
    }
  }

  // ---------------------------------------------------------------------
  // The service
  // ---------------------------------------------------------------------

  /** The date a new menu is stored with: onCreate gives a DAILY menu without one today's date. */
  function CreatedDate(menuType: MenuType, menuDate: Option<Day>, now: Instant): (d: Option<Day>)
    ensures menuType == DAILY ==> d.Some?
    ensures menuDate.Some? ==> d == menuDate
    ensures menuType == SEASONAL ==> d == menuDate
  {
    if menuType == DAILY && menuDate.None? then Some(DayOf(now)) else menuDate
  }

  /** The checks createMenu makes before it saves anything, in order. */
  function CreateMenuCheck(menuRows: seq<MenuRow>, request: MenuRequest): (r: Option<MenuError>)
    ensures r.None? <==>
      (ValidRequest(request)
       && !(request.menuType == Some(DAILY) && request.menuDate.Some?
            && ExistsByMenuTypeAndMenuDate(menuRows, DAILY, request.menuDate.value)))
    ensures ValidateMenuRequest(request).Some? ==> r == ValidateMenuRequest(request)
    ensures request.menuDate.None? || request.menuType != Some(DAILY) ==> r == ValidateMenuRequest(request)
  {
    var invalid := ValidateMenuRequest(request);
    if invalid.Some? then invalid
    else if request.menuType.value == DAILY && request.menuDate.Some?
         && ExistsByMenuTypeAndMenuDate(menuRows, DAILY, request.menuDate.value)
    then Some(DailyMenuExists(request.menuDate.value))
    else None
  }

  /** A DAILY request without a date passes even when today already has a DAILY menu, and then duplicates it. */
  lemma UndatedCreateCanDuplicateToday(now: Instant, name: string, dishes: seq<DishRequest>)
    requires ValidName(Some(name)) && HasDailyStructure(dishes)
    ensures var today := MenuRow(1, "Pranzo", None, DAILY, Some(DayOf(now)), true, now, Some(now));
            var request := MenuRequest(Some(name), None, Some(DAILY), None, Some(dishes), None);
            var created := MenuRow(2, name, None, DAILY, CreatedDate(DAILY, None, now), false, now, Some(now));
            CreateMenuCheck([today], request).None? && OneDailyPerDate([today])
            && !OneDailyPerDate([today, created])
  {
    var today := MenuRow(1, "Pranzo", None, DAILY, Some(DayOf(now)), true, now, Some(now));
    var created := MenuRow(2, name, None, DAILY, CreatedDate(DAILY, None, now), false, now, Some(now));
    assert dishes != [] by {
      assert CountCategory(dishes, PRIMI) == 3;
    }
    assert [today, created][0] == today && [today, created][1] == created;
  }

  /** The row updateMenu stores: the request's name, description, date and (if given) status; type and creation kept. */
  function UpdatedMenuRow(existing: MenuRow, request: MenuRequest, now: Instant): (r: MenuRow)
    requires request.name.Some?
    ensures r.id == existing.id && r.menuType == existing.menuType && r.createdAt == existing.createdAt
    ensures r.name == request.name.value && r.description == request.description && r.menuDate == request.menuDate
    ensures r.isActive == request.isActive.GetOr(existing.isActive) && r.updatedAt == Some(now)
  {
    existing.(name := request.name.value, description := request.description, menuDate := request.menuDate,
              isActive := request.isActive.GetOr(existing.isActive), updatedAt := Some(now))
  }

  class MenuServiceImpl {
    const menus: MenuRepository
    const dishes: DishRepository

    predicate Valid()
      reads this, menus, dishes
    {
      menus.Valid() && dishes.Valid() && DishesLinked(menus.rows, dishes.rows)
    }

    constructor (menus: MenuRepository, dishes: DishRepository)
      requires menus.Valid() && dishes.Valid() && DishesLinked(menus.rows, dishes.rows)
      ensures Valid() && this.menus == menus && this.dishes == dishes
    {
      this.menus := menus;
      this.dishes := dishes;
    }

    /** createDishesFromRequest: each request becomes a dish of the menu, saved in order. */
    method CreateDishesFromRequest(requests: seq<DishRequest>, menuId: int) returns (created: seq<Dish>)
      requires Valid() && FindMenu(menus.rows, menuId).Some?
      modifies dishes
      ensures Valid() && dishes.nextId == old(dishes.nextId) + |requests|
      ensures created == BuildDishes(requests, old(dishes.nextId), menuId)
      ensures dishes.rows == old(dishes.rows) + created
      ensures DishesOf(dishes.rows, menuId) == DishesOf(old(dishes.rows), menuId) + created
      ensures forall other :: other != menuId ==> DishesOf(dishes.rows, other) == DishesOf(old(dishes.rows), other)
    {
      created := [];
      var i := 0;
      while i < |requests|
        invariant 0 <= i <= |requests|
        invariant dishes.Valid() && dishes.nextId == old(dishes.nextId) + i
        invariant created == BuildDishes(requests[..i], old(dishes.nextId), menuId)
        invariant dishes.rows == old(dishes.rows) + created
      {
        var saved := dishes.Save(DishFromRequest(requests[i], 0, menuId));
        assert requests[..i + 1][..i] == requests[..i];
        created := created + [saved];
        i := i + 1;
      }
      assert requests[..i] == requests;
      LinkedAfterDishAppend(menus.rows, old(dishes.rows), created, menuId);
      AppendedDishesOf(old(dishes.rows), created, menuId);
    }

    /** The dish loop of duplicateMenu: each original dish is copied into the menu and saved. */
    method CopyDishesInto(originals: seq<Dish>, menuId: int) returns (copied: seq<Dish>)
      requires Valid() && FindMenu(menus.rows, menuId).Some?
      modifies dishes
      ensures Valid() && dishes.nextId == old(dishes.nextId) + |originals|
      ensures copied == CopyDishes(originals, old(dishes.nextId), menuId)
      ensures dishes.rows == old(dishes.rows) + copied
      ensures DishesOf(dishes.rows, menuId) == DishesOf(old(dishes.rows), menuId) + copied
      ensures forall other :: other != menuId ==> DishesOf(dishes.rows, other) == DishesOf(old(dishes.rows), other)
    {
      copied := [];
      var i := 0;
      while i < |originals|
        invariant 0 <= i <= |originals|
        invariant dishes.Valid() && dishes.nextId == old(dishes.nextId) + i
        invariant copied == CopyDishes(originals[..i], old(dishes.nextId), menuId)
        invariant dishes.rows == old(dishes.rows) + copied
      {
        var saved := dishes.Save(CopyDish(originals[i], 0, menuId));
        assert originals[..i + 1][..i] == originals[..i];
        copied := copied + [saved];
        i := i + 1;
      }
      assert originals[..i] == originals;
      LinkedAfterDishAppend(menus.rows, old(dishes.rows), copied, menuId);
      AppendedDishesOf(old(dishes.rows), copied, menuId);
    }

    /** The dish steps of updateMenu: the menu's dishes are deleted, then the requested ones are saved. */
    method ReplaceDishes(menuId: int, requests: seq<DishRequest>) returns (created: seq<Dish>)
      requires Valid() && FindMenu(menus.rows, menuId).Some?
      modifies dishes
      ensures Valid()
      ensures created == BuildDishes(requests, old(dishes.nextId), menuId)
      ensures dishes.rows == WithoutMenu(old(dishes.rows), menuId) + created
      ensures DishesOf(dishes.rows, menuId) == created
      ensures forall other :: other != menuId ==> DishesOf(dishes.rows, other) == DishesOf(old(dishes.rows), other)
    {
      DeleteDishesOf(menuId);
      created := CreateDishesFromRequest(requests, menuId);
    }

    /** dishRepository.deleteByMenuId under the service: the menu is left without dishes, other menus keep theirs. */
    method DeleteDishesOf(menuId: int)
      requires Valid()
      modifies dishes
      ensures Valid() && dishes.nextId == old(dishes.nextId)
      ensures dishes.rows == WithoutMenu(old(dishes.rows), menuId)
      ensures DishesOf(dishes.rows, menuId) == []
      ensures forall other :: other != menuId ==> DishesOf(dishes.rows, other) == DishesOf(old(dishes.rows), other)
    {
      LinkedAfterDishDelete(menus.rows, dishes.rows, menuId);
      DeleteByMenuIdSplits(dishes.rows, menuId);
      forall other | other != menuId ensures DishesOf(WithoutMenu(dishes.rows, menuId), other) == DishesOf(dishes.rows, other) {
        WithoutMenuKeepsOtherMenus(dishes.rows, menuId, other);
      }
      dishes.DeleteByMenuId(menuId);
    }

    /**
      * createMenu: after the checks, the menu is stored under the next id
      * (inactive unless the request says otherwise, dated today when DAILY
      * without a date) and its dishes are stored pointing at it.
      */
    method CreateMenu(request: MenuRequest, now: Instant) returns (result: Result<MenuResponse, MenuError>)
      requires Valid()
      modifies menus, dishes
      ensures Valid()
      ensures result.Err? <==> CreateMenuCheck(old(menus.rows), request).Some?
      ensures result.Err? ==> result.error == CreateMenuCheck(old(menus.rows), request).value
      ensures result.Err? ==> menus.rows == old(menus.rows) && dishes.rows == old(dishes.rows)
      ensures result.Ok? ==>
        var id := old(menus.nextId);
        var row := MenuRow(id, request.name.value, request.description, request.menuType.value,
                           CreatedDate(request.menuType.value, request.menuDate, now),
                           request.isActive.GetOr(false), now, Some(now));
        var created := BuildDishes(request.dishes.value, old(dishes.nextId), id);
        && menus.rows == old(menus.rows) + [row]
        && dishes.rows == old(dishes.rows) + created
        && DishesOf(dishes.rows, id) == created
        && result.value == ConvertToResponseDTO(row, created)
    {
      var invalid := ValidateMenuRequest(request);
      if invalid.Some? {
        return Err(invalid.value);
      }
      if request.menuType.value == DAILY && request.menuDate.Some? {
        if ExistsByMenuTypeAndMenuDate(menus.rows, DAILY, request.menuDate.value) {
          return Err(DailyMenuExists(request.menuDate.value));
        }
      }
      var response := CreateCheckedMenu(request, now);
      result := Ok(response);
    }

    /** The part of createMenu after the checks: the menu is saved, then its dishes. */
    method CreateCheckedMenu(request: MenuRequest, now: Instant) returns (response: MenuResponse)
      requires Valid() && request.name.Some? && request.menuType.Some? && request.dishes.Some?
      modifies menus, dishes
      ensures Valid()
      ensures var id := old(menus.nextId);
              var row := MenuRow(id, request.name.value, request.description, request.menuType.value,
                                 CreatedDate(request.menuType.value, request.menuDate, now),
                                 request.isActive.GetOr(false), now, Some(now));
              var created := BuildDishes(request.dishes.value, old(dishes.nextId), id);
              && menus.rows == old(menus.rows) + [row]
              && dishes.rows == old(dishes.rows) + created
              && DishesOf(dishes.rows, id) == created
              && response == ConvertToResponseDTO(row, created)
    {
      var menu := new Menu.Build(request.name.value, request.description, request.menuType.value, request.menuDate,
                                 Some(request.isActive.GetOr(false)), Some(now), Some(now), now);
      var row := SaveNewMenu(menu, now);
      var created := CreateDishesFromRequest(request.dishes.value, row.id);
      menu.dishes := created;
      response := ConvertToResponseDTO(row, created);
    }

    /** save of a menu built in memory: the row is appended under the next id and owns no dish yet. */
    method SaveNewMenu(menu: Menu, now: Instant) returns (row: MenuRow)
      requires Valid() && menu.id.None?
      modifies menus, menu
      ensures Valid() && menus.rows == old(menus.rows) + [row] && menus.nextId == old(menus.nextId) + 1
      ensures row == MenuRow(old(menus.nextId), menu.name, menu.description, menu.menuType,
                             CreatedDate(menu.menuType, old(menu.menuDate), now), menu.isActive, now, Some(now))
      ensures FindMenu(menus.rows, row.id).Some? && DishesOf(dishes.rows, row.id) == []
      ensures menu.id == Some(row.id) && menu.dishes == old(menu.dishes)
      ensures menu.name == old(menu.name) && menu.description == old(menu.description)
      ensures menu.menuType == old(menu.menuType) && menu.isActive == old(menu.isActive)
    {
      ghost var oldMenus := menus.rows;
      menus.Save(menu, now);
      row := menu.Row();
      LinkedAfterMenuAppend(oldMenus, dishes.rows, row);
      FreshMenuHasNoDishes(oldMenus, dishes.rows, row.id);
      assert menus.rows[|oldMenus|] == row;
    }

    /** save of a loaded menu: onUpdate stamps it and its row is overwritten in place. */
    method SaveLoadedMenu(menu: Menu, now: Instant) returns (row: MenuRow)
      requires Valid() && menu.id.Some? && FindMenu(menus.rows, menu.id.value).Some?
      modifies menus, menu
      ensures Valid() && menus.rows == ReplaceMenu(old(menus.rows), row)
      ensures row == MenuRow(old(menu.id).value, old(menu.name), old(menu.description), old(menu.menuType),
                             old(menu.menuDate), old(menu.isActive), old(menu.createdAt), Some(now))
      ensures menu.dishes == old(menu.dishes)
    {
      ghost var oldMenus := menus.rows;
      menus.Save(menu, now);
      row := menu.Row();
      LinkedAfterReplace(oldMenus, dishes.rows, row);
    }

    /**
      * updateMenu: the request is validated before the lookup; the stored row
      * takes the request's fields, and the menu's dishes are replaced wholesale.
      */
    method UpdateMenu(id: int, request: MenuRequest, now: Instant) returns (result: Result<MenuResponse, MenuError>)
      requires Valid()
      modifies menus, dishes
      ensures Valid()
      ensures result.Err? <==> !ValidRequest(request) || FindMenu(old(menus.rows), id).None?
      ensures result.Err? ==> result.error == ValidateMenuRequest(request).GetOr(MenuNotFound)
      ensures result.Err? ==> menus.rows == old(menus.rows) && dishes.rows == old(dishes.rows)
      ensures result.Ok? ==>
        var row := UpdatedMenuRow(FindMenu(old(menus.rows), id).value, request, now);
        var created := BuildDishes(request.dishes.value, old(dishes.nextId), id);
        && menus.rows == ReplaceMenu(old(menus.rows), row)
        && dishes.rows == WithoutMenu(old(dishes.rows), id) + created
        && DishesOf(dishes.rows, id) == created
        && (forall other :: other != id ==> DishesOf(dishes.rows, other) == DishesOf(old(dishes.rows), other))
        && result.value == ConvertToResponseDTO(row, created)
    {
      var invalid := ValidateMenuRequest(request);
      if invalid.Some? {
        return Err(invalid.value);
      }
      var found := FindMenu(menus.rows, id);
      if found.None? {
        return Err(MenuNotFound);
      }
      var response := UpdateFoundMenu(found.value, request, now);
      result := Ok(response);
    }

    /** The part of updateMenu after the lookup: the loaded menu takes the request and its dishes are replaced. */
    method UpdateFoundMenu(existing: MenuRow, request: MenuRequest, now: Instant) returns (response: MenuResponse)
      requires Valid() && FindMenu(menus.rows, existing.id) == Some(existing)
      requires request.name.Some? && request.dishes.Some?
      modifies menus, dishes
      ensures Valid()
      ensures var row := UpdatedMenuRow(existing, request, now);
              var created := BuildDishes(request.dishes.value, old(dishes.nextId), existing.id);
              && menus.rows == ReplaceMenu(old(menus.rows), row)
              && dishes.rows == WithoutMenu(old(dishes.rows), existing.id) + created
              && DishesOf(dishes.rows, existing.id) == created
              && (forall other :: other != existing.id ==> DishesOf(dishes.rows, other) == DishesOf(old(dishes.rows), other))
              && response == ConvertToResponseDTO(row, created)
    {
      var menu := new Menu.Load(existing, DishesOf(dishes.rows, existing.id));
      menu.name := request.name.value;
      menu.description := request.description;
      menu.menuDate := request.menuDate;
      menu.isActive := request.isActive.GetOr(menu.isActive);
      menu.updatedAt := Some(now);
      ghost var expected := MenuRow(menu.id.value, menu.name, menu.description, menu.menuType, menu.menuDate,
                                    menu.isActive, menu.createdAt, Some(now));
      assert expected == UpdatedMenuRow(existing, request, now);
      var created := ReplaceDishes(existing.id, request.dishes.value);
      menu.dishes := created;
      var row := SaveLoadedMenu(menu, now);
      assert row == expected;
      response := ConvertToResponseDTO(row, created);
    }

    /** deleteMenu: the menu's dishes go first, then the menu. */
    method DeleteMenu(id: int) returns (result: Result<(), MenuError>)
      requires Valid()
      modifies menus, dishes
      ensures Valid()
      ensures result.Err? <==> FindMenu(old(menus.rows), id).None?
      ensures result.Err? ==> result.error == MenuNotFound
      ensures result.Err? ==> menus.rows == old(menus.rows) && dishes.rows == old(dishes.rows)
      ensures result.Ok? ==>
        && menus.rows == WithoutMenuRow(old(menus.rows), id)
        && |menus.rows| == |old(menus.rows)| - 1
        && dishes.rows == WithoutMenu(old(dishes.rows), id)
        && DishesOf(dishes.rows, id) == []
        && (forall other :: other != id ==> DishesOf(dishes.rows, other) == DishesOf(old(dishes.rows), other))
    {
      var found := FindMenu(menus.rows, id);
      if found.None? {
        return Err(MenuNotFound);
      }
      ghost var oldMenus := menus.rows;
      ghost var oldDishes := dishes.rows;
      WithoutMenuRowCount(oldMenus, id);
      LinkedAfterDelete(oldMenus, oldDishes, id);
      DeleteByMenuIdSplits(oldDishes, id);
      forall other | other != id ensures DishesOf(WithoutMenu(oldDishes, id), other) == DishesOf(oldDishes, other) {
        WithoutMenuKeepsOtherMenus(oldDishes, id, other);
      }
      dishes.DeleteByMenuId(id);
      menus.Delete(id);
      result := Ok(());
    }

    /** toggleMenuStatus: only isActive and updatedAt change; a missing status is refused by the NOT NULL column. */
    method ToggleMenuStatus(id: int, isActive: Option<bool>, now: Instant) returns (result: Result<MenuResponse, MenuError>)
      requires Valid()
      modifies menus, dishes
      ensures Valid()
      ensures dishes.rows == old(dishes.rows)
      ensures result.Err? <==> FindMenu(old(menus.rows), id).None? || isActive.None?
      ensures result.Err? ==> result.error == if FindMenu(old(menus.rows), id).None? then MenuNotFound else NullIsActive
      ensures result.Err? ==> menus.rows == old(menus.rows)
      ensures result.Ok? ==>
        var row := FindMenu(old(menus.rows), id).value.(isActive := isActive.value, updatedAt := Some(now));
        && menus.rows == ReplaceMenu(old(menus.rows), row)
        && result.value == ConvertToResponseDTO(row, DishesOf(dishes.rows, id))
    {
      var found := FindMenu(menus.rows, id);
      if found.None? {
        return Err(MenuNotFound);
      }
      if isActive.None? {
        return Err(NullIsActive);
      }
      var menu := new Menu.Load(found.value, DishesOf(dishes.rows, id));
      menu.isActive := isActive.value;
      menu.updatedAt := Some(now);
      var row := SaveLoadedMenu(menu, now);
      result := Ok(ConvertToResponseDTO(row, menu.dishes));
    }

    /**
      * duplicateMenu: a new inactive menu named after the original with
      * " - Copia", of the same type, date and description, holding copies of
      * the original's dishes; the original menu and its dishes stay as they were.
      */
    method DuplicateMenu(id: int, now: Instant) returns (result: Result<MenuResponse, MenuError>)
      requires Valid()
      modifies menus, dishes
      ensures Valid()
      ensures result.Err? <==> FindMenu(old(menus.rows), id).None?
      ensures result.Err? ==> result.error == MenuNotFound
      ensures result.Err? ==> menus.rows == old(menus.rows) && dishes.rows == old(dishes.rows)
      ensures result.Ok? ==>
        var original := FindMenu(old(menus.rows), id).value;
        var newId := old(menus.nextId);
        var row := MenuRow(newId, original.name + " - Copia", original.description, original.menuType,
                           CreatedDate(original.menuType, original.menuDate, now), false, now, Some(now));
        var copies := CopyDishes(DishesOf(old(dishes.rows), id), old(dishes.nextId), newId);
        && menus.rows == old(menus.rows) + [row]
        && dishes.rows == old(dishes.rows) + copies
        && DishesOf(dishes.rows, id) == DishesOf(old(dishes.rows), id)
        && DishesOf(dishes.rows, newId) == copies
        && result.value == ConvertToResponseDTO(row, copies)
    {
      var found := FindMenu(menus.rows, id);
      if found.None? {
        return Err(MenuNotFound);
      }
      var response := DuplicateFoundMenu(found.value, now);
      result := Ok(response);
    }

    /** The part of duplicateMenu after the lookup: the copy is saved, then the copies of the dishes. */
    method DuplicateFoundMenu(original: MenuRow, now: Instant) returns (response: MenuResponse)
      requires Valid() && FindMenu(menus.rows, original.id) == Some(original)
      modifies menus, dishes
      ensures Valid()
      ensures var newId := old(menus.nextId);
              var row := MenuRow(newId, original.name + " - Copia", original.description, original.menuType,
                                 CreatedDate(original.menuType, original.menuDate, now), false, now, Some(now));
              var copies := CopyDishes(DishesOf(old(dishes.rows), original.id), old(dishes.nextId), newId);
              && menus.rows == old(menus.rows) + [row]
              && dishes.rows == old(dishes.rows) + copies
              && DishesOf(dishes.rows, original.id) == DishesOf(old(dishes.rows), original.id)
              && DishesOf(dishes.rows, newId) == copies
              && response == ConvertToResponseDTO(row, copies)
    {
      var originalDishes := DishesOf(dishes.rows, original.id);
      var duplicate := new Menu.Build(original.name + " - Copia", original.description, original.menuType,
                                      original.menuDate, Some(false), Some(now), Some(now), now);
      var row := SaveNewMenu(duplicate, now);
      var copies := CopyDishesInto(originalDishes, row.id);
      duplicate.dishes := copies;
      response := ConvertToResponseDTO(row, copies);
    }
  }

  /** A created DAILY menu is stored with exactly three primi, three secondi and three contorni. */
  lemma CreatedDailyMenuKeepsStructure(request: MenuRequest, firstId: int, menuId: int)
    requires ValidRequest(request) && request.menuType == Some(DAILY)
    ensures var stored := BuildDishes(request.dishes.value, firstId, menuId);
            CountDishCategory(stored, PRIMI) == 3 && CountDishCategory(stored, SECONDI) == 3
            && CountDishCategory(stored, CONTORNI) == 3
  {
    BuildDishesKeepsCategories(request.dishes.value, firstId, menuId, PRIMI);
    BuildDishesKeepsCategories(request.dishes.value, firstId, menuId, SECONDI);
    BuildDishesKeepsCategories(request.dishes.value, firstId, menuId, CONTORNI);
  }

  /** A duplicated dated DAILY menu shares its date with the original: duplicateMenu makes no uniqueness check. */
  lemma DuplicateOfDatedDailyMenuSharesDate(original: MenuRow, newId: int, now: Instant)
    requires original.menuType == DAILY && original.menuDate.Some? && original.id != newId
    ensures var copy := MenuRow(newId, original.name + " - Copia", original.description, original.menuType,
                                CreatedDate(original.menuType, original.menuDate, now), false, now, Some(now));
            OneDailyPerDate([original]) && !OneDailyPerDate([original, copy])
  {
    var copy := MenuRow(newId, original.name + " - Copia", original.description, original.menuType,
                        CreatedDate(original.menuType, original.menuDate, now), false, now, Some(now));
    assert [original, copy][0] == original && [original, copy][1] == copy;
  }
}
