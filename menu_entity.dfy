/**
  * The Menu and Dish entities: a menu row and its in-memory entity with the
  * @PrePersist and @PreUpdate hooks and the business predicates, and the dish
  * row that points back to its menu.
  */
module MenuEntity {
  import opened Common

  datatype MenuType = DAILY | SEASONAL

  datatype DishCategory = ANTIPASTI | PRIMI | SECONDI | CONTORNI | DOLCI

  /** A row of the menus table; null columns are None. */
  datatype MenuRow = MenuRow(
    id: int,
    name: string,
    description: Option<string>,
    menuType: MenuType,
    menuDate: Option<Day>,
    isActive: bool,
    createdAt: Instant,
    updatedAt: Option<Instant>)

  /**
    * A row of the dishes table. The price is kept as an opaque number of
    * hundredths; the menu is referenced by id.
    */
  datatype Dish = Dish(
    id: int,
    name: string,
    description: Option<string>,
    ingredients: Option<string>,
    category: DishCategory,
    price: Option<int>,
    isAvailable: bool,
    displayOrder: Option<int>,
    menuId: int)

  /** Menu.isExpired on a row: only a dated DAILY menu can expire, the day after its date. */
  predicate RowIsExpired(row: MenuRow, today: Day) {
    row.menuType == DAILY && row.menuDate.Some? && row.menuDate.value < today
  }

  /** The Menu entity while the service works on it. */
  class Menu {
    /** null until the menu is first saved */
    var id: Option<int>
    var name: string
    var description: Option<string>
    var menuType: MenuType
    var menuDate: Option<Day>
    var isActive: bool
    var dishes: seq<Dish>
    var createdAt: Instant
    var updatedAt: Option<Instant>

    /**
      * Menu.builder()...build(): unset fields take the builder defaults, an
      * active menu with no dishes created at `now`.
      */
    constructor Build(name: string, description: Option<string>, menuType: MenuType, menuDate: Option<Day>,
                      isActive: Option<bool>, createdAt: Option<Instant>, updatedAt: Option<Instant>, now: Instant)
      ensures this.id.None? && this.name == name && this.description == description
      ensures this.menuType == menuType && this.menuDate == menuDate
      ensures this.isActive == isActive.GetOr(true)
      ensures this.createdAt == createdAt.GetOr(now) && this.updatedAt == updatedAt
      ensures this.dishes == []
    {
      this.id := None;
      this.name := name;
      this.description := description;
      this.menuType := menuType;
      this.menuDate := menuDate;
      this.isActive := isActive.GetOr(true);
      this.dishes := [];
      this.createdAt := createdAt.GetOr(now);
      this.updatedAt := updatedAt;
    }

    /** The entity findById hands back for a stored row and its dishes. */
    constructor Load(row: MenuRow, dishes: seq<Dish>)
      ensures id == Some(row.id) && Row() == row && this.dishes == dishes
      ensures name == row.name && description == row.description && menuType == row.menuType
      ensures menuDate == row.menuDate && isActive == row.isActive
      ensures createdAt == row.createdAt && updatedAt == row.updatedAt
    {
      this.id := Some(row.id);
      this.name := row.name;
      this.description := row.description;
      this.menuType := row.menuType;
      this.menuDate := row.menuDate;
      this.isActive := row.isActive;
      this.dishes := dishes;
      this.createdAt := row.createdAt;
      this.updatedAt := row.updatedAt;
    }

    /** The row this entity is stored as. */
    function Row(): (row: MenuRow)
      reads this
      requires id.Some?
      ensures row.id == id.value && row.name == name && row.menuType == menuType && row.menuDate == menuDate
      ensures row.isActive == isActive && row.description == description
      ensures row.createdAt == createdAt && row.updatedAt == updatedAt
    {
      MenuRow(id.value, name, description, menuType, menuDate, isActive, createdAt, updatedAt)
    }

    /**
      * onCreate (@PrePersist): both timestamps become `now`, and a DAILY menu
      * without a date gets today's date.
      */
    method OnCreate(now: Instant)
      modifies this
      ensures createdAt == now && updatedAt == Some(now)
      ensures menuDate == if menuType == DAILY && old(menuDate).None? then Some(DayOf(now)) else old(menuDate)
      ensures id == old(id) && name == old(name) && description == old(description) && menuType == old(menuType)
      ensures isActive == old(isActive) && dishes == old(dishes)
    {
      createdAt := now;
      updatedAt := Some(now);
      if menuType == DAILY && menuDate.None? {
        menuDate := Some(DayOf(now));
      }
    }

    /** onUpdate (@PreUpdate): only updatedAt moves. */
    method OnUpdate(now: Instant)
      modifies this
      ensures updatedAt == Some(now)
      ensures id == old(id) && name == old(name) && description == old(description) && menuType == old(menuType)
      ensures menuDate == old(menuDate) && isActive == old(isActive) && dishes == old(dishes)
      ensures createdAt == old(createdAt)
    {
      updatedAt := Some(now);
    }

    /** isExpired */
    predicate IsExpired(today: Day)
      reads this
    {
      menuType == DAILY && menuDate.Some? && menuDate.value < today
    }

    /** isDailyMenu */
    predicate IsDailyMenu()
      reads this
    {
      menuType == DAILY
    }

    /** isSeasonalMenu */
    predicate IsSeasonalMenu()
      reads this
    {
      menuType == SEASONAL
    }

    /** A menu is exactly one of daily and seasonal; a seasonal menu never expires. */
    lemma KindsAreExclusive(today: Day)
      ensures IsDailyMenu() != IsSeasonalMenu()
      ensures IsSeasonalMenu() ==> !IsExpired(today)
      ensures id.Some? ==> (IsExpired(today) <==> RowIsExpired(Row(), today))
    {
    }
  }

  /**
    * After onCreate a DAILY menu always has a date and, when it had none, that
    * date is not expired on the day it was created.
    */
  method OnCreateDatesDailyMenus(m: Menu, now: Instant)
    modifies m
    ensures m.menuType == DAILY ==> m.menuDate.Some?
    ensures old(m.menuDate).None? ==> !m.IsExpired(DayOf(now))
    ensures old(m.menuDate).Some? ==> m.menuDate == old(m.menuDate)
  {
    m.OnCreate(now);
  }
}
