# Capstone restaurant backend — verified model of its core

Capstone is the Spring Boot backend of a restaurant. This project models its
business core in Dafny and proves properties of the model:

- **Table reservations.** Create, read, update and cancel reservations against
  per-area seat ceilings: INDOOR holds 60 seats, every other area 40. Bookings
  are accepted for lunch, [12:00, 15:00), and for dinner, [19:00, 23:00]. The
  date cannot be in the past and a party has 1 to 20 people. Changes and
  cancellations need 24 hours of notice before the original booking. The
  seat-count query of the repository is modelled too.
- **Reservation authorisation.** The ownership and admin checks used before
  a reservation is touched.
- **Menus.** Request validation, including the daily-menu structure of 3
  primi, 3 secondi and 3 contorni. Menu creation (one daily menu per date when
  a date is given), update, delete, status toggle and duplication, over the
  menus and dishes tables. The Menu entity's hooks and predicates. The order in
  which dishes are listed.
- **E-mail verification.** The token entity (lifetime 24 hours, used once),
  the token table's queries and bulk deletes, and the service that issues,
  verifies, re-sends (at most 3 tokens created in the last hour, across all
  users) and purges tokens.
- **Users.** Registration with a unique email and an encoded password, the
  lookups, and password change.
- **Rate limiting.** Client address extraction from X-Forwarded-For, X-Real-IP
  and the remote address. The per-operation bucket keys and limits. The
  management of the key-to-bucket map.

Time is an integer. A day is a day number, a time of day is minutes since
midnight, and an instant is minutes since day 0. "Now" and "today" are
parameters of every operation that reads the clock. The stores are classes
holding the rows of their table as a `seq` and the next IDENTITY value. Each
store's `Valid()` keeps ids unique, and where the schema demands it, emails or
token strings too. The services hold their repositories and keep the foreign
keys between the tables as part of their own `Valid()`: every reservation's
user exists, every token's user exists, and every dish's menu exists.

Modules, by file:

| file | module | models |
|---|---|---|
| common.dfy | Common | Option/Result, the time encoding, `String.trim` |
| rows.dfy | Rows | filter, find-first, count and save-over-id on table rows |
| users.dfy | Users | User, UserRepository, UserService |
| reservation_repository.dfy | ReservationRepository | TableReservation and TableReservationRepository |
| reservation_rules.dfy | ReservationRules | the validation and capacity rules of TableReservationService |
| reservation_service.dfy | ReservationService | TableReservationService |
| reservation_security.dfy | ReservationSecurity | ReservationSecurityService |
| menu_entity.dfy | MenuEntity | Menu and Dish entities |
| menu_store.dfy | MenuStore | MenuRepository and DishRepository |
| dish_ordering.dfy | DishOrdering | the dish comparator of convertToResponseDTO |
| menu_service.dfy | MenuService | MenuService |
| verification_token.dfy | VerificationTokens | EmailVerificationToken |
| token_repository.dfy | TokenStore | EmailVerificationTokenRepository |
| email_verification.dfy | EmailVerification | EmailVerificationService |
| rate_limiting.dfy | RateLimiting | RateLimitingService |

## Model

| member | source | states |
|---|---|---|
| ReservationRules.GetMaxCapacityForArea | Capstone/src/main/java/com/example/Capstone/service/TableReservationService.java:228-230 | the ceiling is 60 exactly for INDOOR and 40 exactly for every other area |
| ReservationRules.IsValidTime | Capstone/src/main/java/com/example/Capstone/service/TableReservationService.java:48-57 | a time is accepted iff it lies in [12:00, 15:00) or in [19:00, 23:00] |
| ReservationRules.ValidTimeBoundaries | Capstone/src/main/java/com/example/Capstone/service/TableReservationService.java:48-61 | 12:00, 14:59, 19:00 and 23:00 pass; 11:59, 15:00, 18:59 and 23:01 fail |
| ReservationRules.CheckRequestFields | Capstone/src/main/java/com/example/Capstone/service/TableReservationService.java:42-67 | no error iff the date is not before today, the time is valid and the party is 1..20; a past date is reported first, then a bad time; only these three errors arise |
| ReservationRules.TodayIsAccepted | Capstone/src/main/java/com/example/Capstone/service/TableReservationService.java:42-45 | today's date passes the date check; yesterday fails with InvalidReservationDate |
| ReservationRules.ToUpperCase | Capstone/src/main/java/com/example/Capstone/service/TableReservationService.java:72 | toUpperCase keeps the length and upper-cases each character on its own |
| ReservationRules.ParseArea | Capstone/src/main/java/com/example/Capstone/service/TableReservationService.java:72 | an area is found iff the upper-cased text is that area's name; otherwise there is no area (valueOf throws) |
| ReservationRules.ParseAreaName | Capstone/src/main/java/com/example/Capstone/service/TableReservationService.java:72 | parsing an area's own name gives that area back |
| ReservationRules.ParseAreaExamples | Capstone/src/main/java/com/example/Capstone/service/TableReservationService.java:72 | "indoor" and "Outdoor" parse whatever their case; "terrace" is rejected |
| ReservationRules.IsTooLateToChange | Capstone/src/main/java/com/example/Capstone/service/TableReservationService.java:115-125 | too late iff fewer than 24 hours remain before the booked date and time |
| ReservationRules.DeadlineBoundary | Capstone/src/main/java/com/example/Capstone/service/TableReservationService.java:120-123 | exactly 24 hours before is still allowed, one minute later is not, and the booked instant itself is too late |
| ReservationRules.CreateKeepsCapacity | Capstone/src/main/java/com/example/Capstone/service/TableReservationService.java:75-89 | if every (area, date) bucket is within its ceiling and the create check passes, every bucket is still within its ceiling after the insert |
| ReservationRules.SeatsOfThree | Capstone/src/main/java/com/example/Capstone/repository/TableReservationRepository.java:25-33 | the seats of a three-row table are the sum of the parties in the bucket |
| ReservationRules.FitsExample | Capstone/src/main/java/com/example/Capstone/service/TableReservationService.java:75-80 | with 58 indoor seats taken a party of 2 fits, and after it a party of 1 does not |
| ReservationRules.Fits | Capstone/src/main/java/com/example/Capstone/service/TableReservationService.java:75-80 | the party fits when the seats already taken in the (area, date) bucket plus the party stay within the area's ceiling |
| ReservationRules.NeedsCapacityCheck | Capstone/src/main/java/com/example/Capstone/service/TableReservationService.java:158-160 | the update re-checks capacity only when the date, the area or the party size changes |
| ReservationRules.UpdateFitsAsWritten | Capstone/src/main/java/com/example/Capstone/service/TableReservationService.java:162-167 | the seats of the reservation's CURRENT bucket, less its old party, plus the new party, within the NEW area's ceiling |
| ReservationRules.SameBucketChecksAgree | Capstone/src/main/java/com/example/Capstone/service/TableReservationService.java:158-170 | when the area and date stay the same, the written update check and the intended one give the same answer |
| ReservationRules.SameBucketUpdateKeepsCapacity | Capstone/src/main/java/com/example/Capstone/service/TableReservationService.java:158-177 | an update that stays in its bucket and passes the written check keeps every bucket within its ceiling |
| ReservationRules.IntendedUpdateKeepsCapacity | Capstone/src/main/java/com/example/Capstone/service/TableReservationService.java:158-170 | an update that passes the intended check keeps every bucket within its ceiling, across buckets too |
| ReservationRules.UpdateAsWrittenCanOverbook | Capstone/src/main/java/com/example/Capstone/service/TableReservationService.java:158-170 | moving a party of 2 from INDOOR to a full OUTDOOR bucket passes the written check, fails the intended one, and leaves OUTDOOR over its ceiling |
| ReservationRules.DeleteKeepsCapacity | Capstone/src/main/java/com/example/Capstone/service/TableReservationService.java:198 | removing a reservation keeps every bucket within its ceiling |
| ReservationRepository.CountReservedSeatsByAreaAndDate | Capstone/src/main/java/com/example/Capstone/repository/TableReservationRepository.java:25-33 | the sum is never negative for non-negative parties and is 0 when no row is in the area and date range (COALESCE) |
| ReservationRepository.CountConcat | Capstone/src/main/java/com/example/Capstone/repository/TableReservationRepository.java:25-33 | the count of two tables together is the sum of their counts |
| ReservationRepository.CountAppend | Capstone/src/main/java/com/example/Capstone/repository/TableReservationRepository.java:25-33 | a new row raises the count by its party exactly when it is in the area and date range, and leaves it unchanged otherwise |
| ReservationRepository.CountReplace | Capstone/src/main/java/com/example/Capstone/repository/TableReservationRepository.java:25-33 | overwriting a row moves its contribution from its old values to its new ones |
| ReservationRepository.CountRemove | Capstone/src/main/java/com/example/Capstone/repository/TableReservationRepository.java:25-33 | deleting a row removes exactly its contribution |
| ReservationRepository.ExistsByIdAndUserId | Capstone/src/main/java/com/example/Capstone/repository/TableReservationRepository.java:18 | true iff some row has that id and that user |
| ReservationRepository.FindById | Capstone/src/main/java/com/example/Capstone/service/TableReservationService.java:111-112 | a found row is in the table with that id; nothing is found iff no row has the id |
| ReservationRepository.FindByReservationDate | Capstone/src/main/java/com/example/Capstone/repository/TableReservationRepository.java:22 | returns exactly the rows on that date |
| ReservationRepository.FindByReservationDateBetween | Capstone/src/main/java/com/example/Capstone/repository/TableReservationRepository.java:35-39 | returns exactly the rows whose date lies in [start, end], both ends included |
| ReservationRepository.CountOverDateRange | Capstone/src/main/java/com/example/Capstone/repository/TableReservationRepository.java:25-39 | the seat count of a bucket equals the seats of that area among the rows findByReservationDateBetween returns |
| ReservationRepository.FindByIdUnique | Capstone/src/main/java/com/example/Capstone/service/TableReservationService.java:111-112 | with unique ids, findById returns the one row with that id |
| ReservationRepository.RemoveKeepsUniqueIds | Capstone/src/main/java/com/example/Capstone/service/TableReservationService.java:198 | deleting one row keeps ids unique and every other row, in order |
| ReservationRepository.WithoutId | Capstone/src/main/java/com/example/Capstone/service/TableReservationService.java:198 | deleteById keeps exactly the rows with another id |
| ReservationRepository.WithoutIdKeepsOthers | Capstone/src/main/java/com/example/Capstone/service/TableReservationService.java:198 | with unique ids, deleteById removes exactly the row with that id, or nothing when there is none |
| ReservationRepository.TableReservationRepository.constructor | Capstone/src/main/java/com/example/Capstone/repository/TableReservationRepository.java:16 | the table starts empty and consistent |
| ReservationRepository.TableReservationRepository.Insert | Capstone/src/main/java/com/example/Capstone/service/TableReservationService.java:89 | save of a new row appends it under the next id and keeps ids unique |
| ReservationRepository.TableReservationRepository.Update | Capstone/src/main/java/com/example/Capstone/service/TableReservationService.java:177 | save of a loaded row overwrites the row with its id and nothing else |
| ReservationRepository.TableReservationRepository.DeleteById | Capstone/src/main/java/com/example/Capstone/service/TableReservationService.java:198 | the table becomes the rows with another id |
| ReservationService.ConvertToDTO | Capstone/src/main/java/com/example/Capstone/service/TableReservationService.java:232-244 | the response carries every field of the reservation and the owner's "nome cognome" |
| ReservationService.CreateCheck | Capstone/src/main/java/com/example/Capstone/service/TableReservationService.java:42-80 | create passes iff the fields are valid, the user exists, the area parses and the party fits in the bucket |
| ReservationService.CreateFieldErrorsFirst | Capstone/src/main/java/com/example/Capstone/service/TableReservationService.java:42-67 | a bad date, time or party size is reported before any store access, whatever the store holds |
| ReservationService.CreateCapacityError | Capstone/src/main/java/com/example/Capstone/service/TableReservationService.java:75-80 | CapacityExceeded names the requested area, the requested date and that area's ceiling |
| ReservationService.UpdateCheck | Capstone/src/main/java/com/example/Capstone/service/TableReservationService.java:115-170 | an update passes iff it is in time, has valid fields and a known area, and either changes none of date, area and party size or passes the written capacity check |
| ReservationService.UpdateFieldErrorsFirst | Capstone/src/main/java/com/example/Capstone/service/TableReservationService.java:128-153 | once the notice check passes, a bad date, time or party size is the error, whatever the store holds |
| ReservationService.UpdateLateIff | Capstone/src/main/java/com/example/Capstone/service/TableReservationService.java:115-125 | update fails with LateCancellation iff it is inside the 24 hours, whatever the request asks for |
| ReservationService.TimeOnlyChangeSkipsCapacity | Capstone/src/main/java/com/example/Capstone/service/TableReservationService.java:158-170 | changing only the time passes iff it is in time and the fields are valid: it never hits CapacityExceeded |
| ReservationService.Updated | Capstone/src/main/java/com/example/Capstone/service/TableReservationService.java:172-175 | the updated reservation has the request's date, time, party and area, and keeps its id and user |
| ReservationService.OwnersExistAfterReplace | Capstone/src/main/java/com/example/Capstone/service/TableReservationService.java:172-177 | overwriting a reservation with one of the same user keeps every reservation's user in the users table |
| ReservationService.OwnersExistAfterDelete | Capstone/src/main/java/com/example/Capstone/service/TableReservationService.java:198 | deleting reservations keeps the user foreign key |
| ReservationService.OwnersExistAfterInsert | Capstone/src/main/java/com/example/Capstone/service/TableReservationService.java:82-89 | saving a reservation of an existing user keeps the user foreign key |
| ReservationService.TableReservationService.constructor | Capstone/src/main/java/com/example/Capstone/service/TableReservationService.java:24-31 | the service accepts any consistent stores whose reservations all belong to stored users |
| ReservationService.TableReservationService.OwnerOf | Capstone/src/main/java/com/example/Capstone/service/TableReservationService.java:239-241 | the reservation's user is the stored user with its user id |
| ReservationService.TableReservationService.CreateReservation | Capstone/src/main/java/com/example/Capstone/service/TableReservationService.java:37-90 | fails iff CreateCheck reports an error, with that error and an unchanged store; on success exactly one row with the request's fields and the next id is appended; every bucket within its ceiling stays within it |
| ReservationService.TableReservationService.GetReservationById | Capstone/src/main/java/com/example/Capstone/service/TableReservationService.java:93-97 | ReservationNotFound iff no row has the id; otherwise the row's response |
| ReservationService.TableReservationService.UpdateReservation | Capstone/src/main/java/com/example/Capstone/service/TableReservationService.java:107-178 | ReservationNotFound for an unknown id; LateCancellation iff inside 24 hours; otherwise fails iff UpdateCheck fails, with the store unchanged; on success only that row changes, to Updated; same-bucket updates keep every bucket within its ceiling |
| ReservationService.TableReservationService.DeleteReservation | Capstone/src/main/java/com/example/Capstone/service/TableReservationService.java:181-199 | fails iff the id is unknown (ReservationNotFound) or the change is inside 24 hours (LateCancellation), with the store unchanged; otherwise succeeds, exactly that row is removed and every other row stays, in order |
| ReservationSecurity.IsOwner | Capstone/src/main/java/com/example/Capstone/config/ReservationSecurityService.java:16-22 | returns true iff the user owns the reservation and never returns false; otherwise UnauthorizedOperation |
| ReservationSecurity.CanAccessReservation | Capstone/src/main/java/com/example/Capstone/config/ReservationSecurityService.java:24-34 | an ADMIN passes without a lookup; anyone else passes iff they own the reservation, and otherwise gets UnauthorizedOperation |
| ReservationSecurity.IsOwnerOrAdmin | Capstone/src/main/java/com/example/Capstone/config/ReservationSecurityService.java:36-42 | an ADMIN passes; anyone else gets isOwner's answer |
| ReservationSecurity.CanAccessIsOwnerOrAdmin | Capstone/src/main/java/com/example/Capstone/config/ReservationSecurityService.java:24-42 | the two entry points take the same decision on every input |
| ReservationSecurity.OwnershipIsOwnerOfFoundRow | Capstone/src/main/java/com/example/Capstone/config/ReservationSecurityService.java:29-33 | for a non-admin, access is granted iff findById finds the reservation and it is theirs; a missing reservation gives UnauthorizedOperation, not a not-found |
| MenuEntity.Menu.Build | Capstone/src/main/java/com/example/Capstone/entity/Menu.java:46-56 | the builder leaves the id unset, defaults isActive to true and createdAt to now, and starts with no dishes |
| MenuEntity.Menu.Load | Capstone/src/main/java/com/example/Capstone/entity/Menu.java:26-59 | a loaded entity carries its row's columns and its dishes |
| MenuEntity.Menu.Row | Capstone/src/main/java/com/example/Capstone/entity/Menu.java:26-59 | the row of a saved entity holds each of its columns |
| MenuEntity.Menu.OnCreate | Capstone/src/main/java/com/example/Capstone/entity/Menu.java:61-70 | createdAt and updatedAt become the same now; menuDate becomes today only for a DAILY menu without a date; nothing else changes |
| MenuEntity.Menu.OnUpdate | Capstone/src/main/java/com/example/Capstone/entity/Menu.java:72-75 | only updatedAt changes |
| MenuEntity.Menu.IsExpired | Capstone/src/main/java/com/example/Capstone/entity/Menu.java:78-83 | a DAILY menu with a date before today; KindsAreExclusive proves a SEASONAL menu never expires |
| MenuEntity.Menu.IsDailyMenu | Capstone/src/main/java/com/example/Capstone/entity/Menu.java:85-87 | the menu type is DAILY; KindsAreExclusive proves exactly one of the two kinds holds |
| MenuEntity.Menu.IsSeasonalMenu | Capstone/src/main/java/com/example/Capstone/entity/Menu.java:89-91 | the menu type is SEASONAL |
| MenuEntity.Menu.KindsAreExclusive | Capstone/src/main/java/com/example/Capstone/entity/Menu.java:78-91 | a menu is exactly one of daily and seasonal, a seasonal menu never expires, and isExpired agrees with the stored row |
| MenuEntity.OnCreateDatesDailyMenus | Capstone/src/main/java/com/example/Capstone/entity/Menu.java:61-83 | after onCreate a DAILY menu has a date, a menu that had no date is not expired today, and a given date is kept |
| MenuStore.FindMenu | Capstone/src/main/java/com/example/Capstone/service/MenuService.java:159-160 | a found menu row is in the table with that id; nothing is found iff no row has the id |
| MenuStore.ExistsByMenuTypeAndMenuDate | Capstone/src/main/java/com/example/Capstone/repository/MenuRepository.java:88 | some menu row has that type and exactly that date; DatedCreateKeepsOneDailyPerDate uses it for the DAILY uniqueness check |
| MenuStore.FindMenuUnique | Capstone/src/main/java/com/example/Capstone/service/MenuService.java:159-160 | with unique ids, findById returns the one row with that id |
| MenuStore.ReplaceMenu | Capstone/src/main/java/com/example/Capstone/service/MenuService.java:176 | save of a loaded menu overwrites the row with its id and nothing else |
| MenuStore.WithoutMenuRow | Capstone/src/main/java/com/example/Capstone/service/MenuService.java:195 | delete keeps only rows with another id |
| MenuStore.WithoutMenuRowKeeps | Capstone/src/main/java/com/example/Capstone/service/MenuService.java:195 | delete keeps every row with another id |
| MenuStore.WithoutMenuRowCount | Capstone/src/main/java/com/example/Capstone/service/MenuService.java:195 | with unique ids, deleting an absent id changes nothing and deleting a present one removes one row |
| MenuStore.DishesOf | Capstone/src/main/java/com/example/Capstone/entity/Menu.java:50-52 | a menu's dish list holds only stored dishes of that menu |
| MenuStore.WithoutMenu | Capstone/src/main/java/com/example/Capstone/repository/DishRepository.java:39-42 | deleteByMenuId keeps only dishes of other menus |
| MenuStore.DeleteByMenuIdSplits | Capstone/src/main/java/com/example/Capstone/repository/DishRepository.java:39-42 | the deleted dishes and the kept dishes together are the whole table, and no dish of the menu is kept |
| MenuStore.DishesOfAppend | Capstone/src/main/java/com/example/Capstone/service/MenuService.java:342 | appended dishes join a menu's list exactly when they point at it |
| MenuStore.WithoutMenuKeepsUniqueIds | Capstone/src/main/java/com/example/Capstone/service/MenuService.java:170 | deleting dishes keeps dish ids unique |
| MenuStore.WithoutMenuRowKeepsUnique | Capstone/src/main/java/com/example/Capstone/service/MenuService.java:195 | deleting a menu keeps menu ids unique |
| MenuStore.MenuRepository.constructor | Capstone/src/main/java/com/example/Capstone/repository/MenuRepository.java:19 | the menus table starts empty |
| MenuStore.MenuRepository.Save | Capstone/src/main/java/com/example/Capstone/service/MenuService.java:141 | a new menu runs onCreate and is appended under the next id; a loaded menu runs onUpdate and overwrites its row; name, type, status and dishes are untouched |
| MenuStore.MenuRepository.Delete | Capstone/src/main/java/com/example/Capstone/service/MenuService.java:195 | the table becomes the rows with another id |
| MenuStore.DishRepository.constructor | Capstone/src/main/java/com/example/Capstone/repository/DishRepository.java:19 | the dishes table starts empty |
| MenuStore.DishRepository.Save | Capstone/src/main/java/com/example/Capstone/service/MenuService.java:342 | a new dish is appended under the next id |
| MenuStore.DishRepository.DeleteByMenuId | Capstone/src/main/java/com/example/Capstone/repository/DishRepository.java:39-42 | the table becomes the dishes of other menus |
| DishOrdering.NameLeTotal | Capstone/src/main/java/com/example/Capstone/service/MenuService.java:349 | any two names compare under String.compareTo |
| DishOrdering.NameLeAntisymmetric | Capstone/src/main/java/com/example/Capstone/service/MenuService.java:349 | names that compare both ways are equal |
| DishOrdering.NameLeTransitive | Capstone/src/main/java/com/example/Capstone/service/MenuService.java:349 | name comparison chains |
| DishOrdering.DishLeTotal | Capstone/src/main/java/com/example/Capstone/service/MenuService.java:348-349 | any two dishes compare under displayOrder (nulls last) then name |
| DishOrdering.DishLeTransitive | Capstone/src/main/java/com/example/Capstone/service/MenuService.java:348-349 | the dish comparator chains |
| DishOrdering.DishLeTiesShareKey | Capstone/src/main/java/com/example/Capstone/service/MenuService.java:348-349 | two dishes that tie have the same display order and the same name |
| DishOrdering.Insert | Capstone/src/main/java/com/example/Capstone/service/MenuService.java:347-349 | inserting into a sorted list gives a sorted list with one more copy of the dish |
| DishOrdering.SortDishes | Capstone/src/main/java/com/example/Capstone/service/MenuService.java:347-349 | the listed dishes are sorted and are a permutation of the menu's dishes |
| DishOrdering.InsertTies | Capstone/src/main/java/com/example/Capstone/service/MenuService.java:347-349 | an inserted dish goes ahead of every dish it ties with and leaves their order alone |
| DishOrdering.SortIsStable | Capstone/src/main/java/com/example/Capstone/service/MenuService.java:347-349 | the sort is stable: dishes that tie on order and name are listed in their input order |
| DishOrdering.SortedPairwise | Capstone/src/main/java/com/example/Capstone/service/MenuService.java:347-349 | in a sorted list every earlier dish is no greater than every later one |
| DishOrdering.SortKeepsSorted | Capstone/src/main/java/com/example/Capstone/service/MenuService.java:347-349 | a list already in order is listed as it is |
| DishOrdering.OrderedDishesFirst | Capstone/src/main/java/com/example/Capstone/service/MenuService.java:348 | every dish with a display order comes before every dish without one |
| DishOrdering.SortExampleTail | Capstone/src/main/java/com/example/Capstone/service/MenuService.java:348 | a dish without an order is listed after one with an order |
| DishOrdering.InsertExample | Capstone/src/main/java/com/example/Capstone/service/MenuService.java:349 | on equal display orders the name decides |
| DishOrdering.SortExample | Capstone/src/main/java/com/example/Capstone/service/MenuService.java:347-349 | a three-dish menu is listed by order, then name, then the unordered dish |
| MenuService.ValidateDailyMenuStructure | Capstone/src/main/java/com/example/Capstone/service/MenuService.java:314-328 | passes iff there are exactly 3 primi, 3 secondi and 3 contorni; the primi error comes first, then secondi, then contorni |
| MenuService.ValidateMenuRequest | Capstone/src/main/java/com/example/Capstone/service/MenuService.java:295-312 | passes iff the request is valid; a name shorter than 3 after trimming fails first, then a missing type, then a missing or empty dish list, then the daily structure |
| MenuService.CategoryCountsSum | Capstone/src/main/java/com/example/Capstone/service/MenuService.java:315-317 | the five category counts add up to the number of dishes |
| MenuService.ValidDailyMenuSize | Capstone/src/main/java/com/example/Capstone/service/MenuService.java:309-328 | a valid daily request has at least 9 dishes, and exactly 9 iff it has no antipasti and no dolci |
| MenuService.CountCategoryAppend | Capstone/src/main/java/com/example/Capstone/service/MenuService.java:315-317 | one more dish changes only its own category's count, by one |
| MenuService.DailyStructureIgnoresAntipastiAndDolci | Capstone/src/main/java/com/example/Capstone/service/MenuService.java:314-328 | adding an antipasto or a dolce keeps a valid daily menu valid; adding a primo, secondo or contorno breaks it |
| MenuService.SeasonalSkipsStructure | Capstone/src/main/java/com/example/Capstone/service/MenuService.java:309-311 | a SEASONAL request is judged the same for any non-empty dish list, and passes iff its name is valid |
| MenuService.BuildDishes | Capstone/src/main/java/com/example/Capstone/service/MenuService.java:330-344 | one dish per request in order, numbered from the next id, isAvailable defaulting to true, linked to the menu |
| MenuService.DishFromRequest | Capstone/src/main/java/com/example/Capstone/service/MenuService.java:330-343 | the request's fields, isAvailable defaulting to true, linked to the menu |
| MenuService.CopyDishes | Capstone/src/main/java/com/example/Capstone/service/MenuService.java:241-253 | one copy per original dish in order, every field but the id and the menu copied |
| MenuService.BuildDishesKeepsCategories | Capstone/src/main/java/com/example/Capstone/service/MenuService.java:330-344 | the stored dishes have as many of each category as the request asked for |
| MenuService.CopyDishesKeepsCategories | Capstone/src/main/java/com/example/Capstone/service/MenuService.java:241-253 | a copy has as many of each category as the original |
| MenuService.DishesOfOwnList | Capstone/src/main/java/com/example/Capstone/service/MenuService.java:330-344 | a list whose dishes all belong to one menu is that menu's whole list and no other menu's |
| MenuService.WithoutMenuKeepsOtherMenus | Capstone/src/main/java/com/example/Capstone/service/MenuService.java:170 | deleting one menu's dishes leaves every other menu's dish list as it was |
| MenuService.DishResponses | Capstone/src/main/java/com/example/Capstone/service/MenuService.java:366-378 | one response per dish, in the same order |
| MenuService.DishToResponse | Capstone/src/main/java/com/example/Capstone/service/MenuService.java:366-378 | the dish's fields except its menu; the formatted price is left out |
| MenuService.InsertResponses | Capstone/src/main/java/com/example/Capstone/service/MenuService.java:347-351 | the converted dishes of an insert are those before plus the new one |
| MenuService.SortResponses | Capstone/src/main/java/com/example/Capstone/service/MenuService.java:347-351 | sorting does not change which dish responses are listed |
| MenuService.ResponseListsDishesInOrder | Capstone/src/main/java/com/example/Capstone/service/MenuService.java:346-364 | the response lists a permutation of the menu's dishes in comparator order and copies the menu's fields |
| MenuService.ConvertToResponseDTO | Capstone/src/main/java/com/example/Capstone/service/MenuService.java:346-364 | the menu's fields and its dishes sorted by the comparator and converted; ResponseListsDishesInOrder states what that list is |
| MenuService.LinkedAfterMenuAppend | Capstone/src/main/java/com/example/Capstone/service/MenuService.java:141 | saving a menu keeps every dish linked to a stored menu |
| MenuService.LinkedAfterDishAppend | Capstone/src/main/java/com/example/Capstone/service/MenuService.java:342 | saving dishes of a stored menu keeps every dish linked |
| MenuService.LinkedAfterReplace | Capstone/src/main/java/com/example/Capstone/service/MenuService.java:176 | overwriting a menu row keeps every dish linked |
| MenuService.LinkedAfterDelete | Capstone/src/main/java/com/example/Capstone/service/MenuService.java:192-195 | deleting a menu after its dishes keeps every dish linked |
| MenuService.LinkedAfterDishDelete | Capstone/src/main/java/com/example/Capstone/service/MenuService.java:170 | deleting dishes keeps every remaining dish linked |
| MenuService.AppendedDishesOf | Capstone/src/main/java/com/example/Capstone/service/MenuService.java:330-344 | dishes saved for a menu extend its list and leave every other menu's list alone |
| MenuService.FreshMenuHasNoDishes | Capstone/src/main/java/com/example/Capstone/service/MenuService.java:141-145 | a menu id not yet handed out owns no dish |
| MenuService.DatedCreateKeepsOneDailyPerDate | Capstone/src/main/java/com/example/Capstone/service/MenuService.java:124-129 | a dated DAILY menu that passes the existence check keeps one DAILY menu per date |
| MenuService.CreatedDate | Capstone/src/main/java/com/example/Capstone/entity/Menu.java:66-69 | a DAILY menu is created with a date (today when none is given), a given date is kept, a SEASONAL menu keeps what it was given |
| MenuService.CreateMenuCheck | Capstone/src/main/java/com/example/Capstone/service/MenuService.java:121-129 | create passes iff the request is valid and, for a dated DAILY menu, no DAILY menu has that date; validation errors come first; undated or SEASONAL menus skip the date check |
| MenuService.UndatedCreateCanDuplicateToday | Capstone/src/main/java/com/example/Capstone/service/MenuService.java:124-129 | a DAILY request without a date passes even when today has a DAILY menu, and then today has two |
| MenuService.UpdatedMenuRow | Capstone/src/main/java/com/example/Capstone/service/MenuService.java:162-167 | update takes the request's name, description and date and, if given, its status; it keeps the id, the type and createdAt |
| MenuService.MenuServiceImpl.constructor | Capstone/src/main/java/com/example/Capstone/service/MenuService.java:23-29 | the service starts over linked stores |
| MenuService.MenuServiceImpl.CreateDishesFromRequest | Capstone/src/main/java/com/example/Capstone/service/MenuService.java:330-344 | the built dishes are appended to the table, become the menu's list and leave other menus' lists alone |
| MenuService.MenuServiceImpl.CopyDishesInto | Capstone/src/main/java/com/example/Capstone/service/MenuService.java:241-253 | the copies are appended to the table, become the copy's list and leave other lists alone |
| MenuService.MenuServiceImpl.ReplaceDishes | Capstone/src/main/java/com/example/Capstone/service/MenuService.java:169-174 | the menu's dishes become exactly the built ones; other menus keep theirs |
| MenuService.MenuServiceImpl.DeleteDishesOf | Capstone/src/main/java/com/example/Capstone/service/MenuService.java:170 | the menu is left without dishes and other menus keep theirs |
| MenuService.MenuServiceImpl.CreateMenu | Capstone/src/main/java/com/example/Capstone/service/MenuService.java:118-149 | fails iff CreateMenuCheck fails, with that error and both tables unchanged; otherwise one menu row (inactive unless asked, dated by onCreate) and its built dishes are appended, and the response lists them in order |
| MenuService.MenuServiceImpl.CreateCheckedMenu | Capstone/src/main/java/com/example/Capstone/service/MenuService.java:131-148 | the menu row and then its dishes are appended |
| MenuService.MenuServiceImpl.SaveNewMenu | Capstone/src/main/java/com/example/Capstone/service/MenuService.java:141 | the new row is appended under the next id and owns no dish yet |
| MenuService.MenuServiceImpl.SaveLoadedMenu | Capstone/src/main/java/com/example/Capstone/service/MenuService.java:176 | the loaded menu's row is overwritten with its fields and a new updatedAt |
| MenuService.MenuServiceImpl.UpdateMenu | Capstone/src/main/java/com/example/Capstone/service/MenuService.java:154-180 | fails iff the request is invalid (that error first) or the id is unknown (MenuNotFound), with both tables unchanged; otherwise the row becomes UpdatedMenuRow and the menu's dishes are replaced wholesale |
| MenuService.MenuServiceImpl.UpdateFoundMenu | Capstone/src/main/java/com/example/Capstone/service/MenuService.java:162-179 | the row becomes UpdatedMenuRow and the menu's dishes are replaced by the requested ones |
| MenuService.MenuServiceImpl.DeleteMenu | Capstone/src/main/java/com/example/Capstone/service/MenuService.java:185-198 | MenuNotFound iff the id is unknown, with both tables unchanged; otherwise the menu's dishes and then the menu are removed |
| MenuService.MenuServiceImpl.ToggleMenuStatus | Capstone/src/main/java/com/example/Capstone/service/MenuService.java:203-216 | MenuNotFound for an unknown id; otherwise only isActive and updatedAt of that row change |
| MenuService.MenuServiceImpl.DuplicateMenu | Capstone/src/main/java/com/example/Capstone/service/MenuService.java:221-259 | MenuNotFound iff the id is unknown; otherwise an inactive copy named original + " - Copia" with the same type and description, dated CreatedDate of the original's date (today for an undated DAILY original), is appended with copies of the dishes, and the original is untouched |
| MenuService.MenuServiceImpl.DuplicateFoundMenu | Capstone/src/main/java/com/example/Capstone/service/MenuService.java:228-258 | the copy row and its copied dishes are appended; the original's dishes stay |
| MenuService.CreatedDailyMenuKeepsStructure | Capstone/src/main/java/com/example/Capstone/service/MenuService.java:309-344 | a created DAILY menu is stored with exactly 3 primi, 3 secondi and 3 contorni |
| MenuService.DuplicateOfDatedDailyMenuSharesDate | Capstone/src/main/java/com/example/Capstone/service/MenuService.java:228-238 | duplicating a dated DAILY menu gives two DAILY menus on one date, since duplicateMenu makes no uniqueness check |
| VerificationTokens.MarkedRow | Capstone/src/main/java/com/example/Capstone/entity/EmailVerificationToken.java:65-68 | a marked token is used and verified at now; its token, user, creation and expiry stay |
| VerificationTokens.ExpiryIsStrict | Capstone/src/main/java/com/example/Capstone/entity/EmailVerificationToken.java:57-59 | a token is not expired at its expiry instant or before, and is expired one minute later |
| VerificationTokens.ValidityIsMonotone | Capstone/src/main/java/com/example/Capstone/entity/EmailVerificationToken.java:61-63 | a token valid at some time was valid at every earlier time |
| VerificationTokens.MarkedRowNeverValid | Capstone/src/main/java/com/example/Capstone/entity/EmailVerificationToken.java:61-68 | a marked token is never valid again, whatever the time |
| VerificationTokens.EmailVerificationToken.Build | Capstone/src/main/java/com/example/Capstone/entity/EmailVerificationToken.java:33-45 | a built token is unused and unverified |
| VerificationTokens.EmailVerificationToken.Load | Capstone/src/main/java/com/example/Capstone/entity/EmailVerificationToken.java:21-45 | a loaded entity stands for its row |
| VerificationTokens.EmailVerificationToken.Row | Capstone/src/main/java/com/example/Capstone/entity/EmailVerificationToken.java:21-45 | the row of a stored entity holds each of its columns |
| VerificationTokens.EmailVerificationToken.OnCreate | Capstone/src/main/java/com/example/Capstone/entity/EmailVerificationToken.java:47-55 | createdAt defaults to now and expiresAt to createdAt + 24h, each only when absent; nothing else changes |
| VerificationTokens.EmailVerificationToken.MarkAsUsed | Capstone/src/main/java/com/example/Capstone/entity/EmailVerificationToken.java:65-68 | used becomes true and verifiedAt now, the token is invalid at every time, and token, user, createdAt and expiresAt stay |
| VerificationTokens.EmailVerificationToken.IsExpired | Capstone/src/main/java/com/example/Capstone/entity/EmailVerificationToken.java:57-59 | expired strictly after expiresAt; ExpiryIsStrict states the boundary |
| VerificationTokens.EmailVerificationToken.IsValid | Capstone/src/main/java/com/example/Capstone/entity/EmailVerificationToken.java:61-63 | not used, not expired and not yet verified; ValidityIsMonotone and MarkedRowNeverValid state its properties |
| VerificationTokens.BuildThenCreate | Capstone/src/main/java/com/example/Capstone/entity/EmailVerificationToken.java:43-55 | a fresh token is valid from now through now + 24h and invalid one minute after |
| TokenStore.FindByToken | Capstone/src/main/java/com/example/Capstone/repository/EmailVerificationTokenRepository.java:17 | a found row is stored with that string; nothing is found iff no row has it |
| TokenStore.ExistsByTokenIffFound | Capstone/src/main/java/com/example/Capstone/repository/EmailVerificationTokenRepository.java:17-23 | existsByToken holds iff findByToken finds a row |
| TokenStore.ExistsByToken | Capstone/src/main/java/com/example/Capstone/repository/EmailVerificationTokenRepository.java:23 | some row holds the token string; ExistsByTokenIffFound ties it to findByToken |
| TokenStore.FindByTokenUnique | Capstone/src/main/java/com/example/Capstone/repository/EmailVerificationTokenRepository.java:17 | with unique strings, findByToken returns the one row holding the string |
| TokenStore.WithoutExpired | Capstone/src/main/java/com/example/Capstone/repository/EmailVerificationTokenRepository.java:25-27 | exactly the rows with expiresAt not before now survive, so a token expiring at now stays |
| TokenStore.WithoutUser | Capstone/src/main/java/com/example/Capstone/repository/EmailVerificationTokenRepository.java:29-31 | exactly the rows of other users survive |
| TokenStore.TokensOf | Capstone/src/main/java/com/example/Capstone/repository/EmailVerificationTokenRepository.java:19 | exactly the rows of the user |
| TokenStore.CountCreatedSince | Capstone/src/main/java/com/example/Capstone/repository/EmailVerificationTokenRepository.java:33-34 | the count never exceeds the number of rows |
| TokenStore.CountCons | Capstone/src/main/java/com/example/Capstone/repository/EmailVerificationTokenRepository.java:33-34 | a row counts exactly when created strictly after the bound |
| TokenStore.CountSpansUsers | Capstone/src/main/java/com/example/Capstone/repository/EmailVerificationTokenRepository.java:33-34 | the count is over all users: the user's own count plus everybody else's |
| TokenStore.CountAfterSave | Capstone/src/main/java/com/example/Capstone/repository/EmailVerificationTokenRepository.java:33-34 | a saved token raises the count by one exactly when created after the bound |
| TokenStore.FilterKeepsUnique | Capstone/src/main/java/com/example/Capstone/repository/EmailVerificationTokenRepository.java:25-31 | bulk deletes keep ids and token strings unique |
| TokenStore.ReplaceToken | Capstone/src/main/java/com/example/Capstone/service/EmailVerificationService.java:73 | save of a loaded token overwrites the row with its id and nothing else |
| TokenStore.SameIdSameRow | Capstone/src/main/java/com/example/Capstone/service/EmailVerificationService.java:73 | with unique ids, a stored row is the only row under its id |
| TokenStore.FindAfterReplace | Capstone/src/main/java/com/example/Capstone/service/EmailVerificationService.java:72-73 | after saving a token over its own id, findByToken finds the saved row |
| TokenStore.TokenRepository.constructor | Capstone/src/main/java/com/example/Capstone/repository/EmailVerificationTokenRepository.java:15 | the table starts empty |
| TokenStore.TokenRepository.Insert | Capstone/src/main/java/com/example/Capstone/service/EmailVerificationService.java:44 | save of a new token runs onCreate and appends its row under the next id |
| TokenStore.TokenRepository.Update | Capstone/src/main/java/com/example/Capstone/service/EmailVerificationService.java:73 | save of a loaded token overwrites its row |
| TokenStore.TokenRepository.DeleteExpiredTokens | Capstone/src/main/java/com/example/Capstone/repository/EmailVerificationTokenRepository.java:25-27 | the table becomes WithoutExpired and stays consistent |
| TokenStore.TokenRepository.DeleteByUser | Capstone/src/main/java/com/example/Capstone/repository/EmailVerificationTokenRepository.java:29-31 | the table becomes WithoutUser and stays consistent |
| EmailVerification.IssuedRow | Capstone/src/main/java/com/example/Capstone/service/EmailVerificationService.java:37-42 | an issued token belongs to the user, is created now, expires at now + 24h, is valid then and not one minute later |
| EmailVerification.IsEmailVerified | Capstone/src/main/java/com/example/Capstone/service/EmailVerificationService.java:124-128 | an unknown email is not verified |
| EmailVerification.IsEmailVerifiedOfStored | Capstone/src/main/java/com/example/Capstone/service/EmailVerificationService.java:124-128 | with unique emails, it reads the stored user's own flag |
| EmailVerification.OtherUsersKeepTokens | Capstone/src/main/java/com/example/Capstone/service/EmailVerificationService.java:32 | deleting one user's tokens leaves every other user's tokens as they were |
| EmailVerification.NoTokensAfterDelete | Capstone/src/main/java/com/example/Capstone/service/EmailVerificationService.java:32 | after deleteByUser the user has no token |
| EmailVerification.IssueLeavesOneToken | Capstone/src/main/java/com/example/Capstone/service/EmailVerificationService.java:30-44 | after issuing, the user has exactly the new token and every other user's tokens are unchanged |
| EmailVerification.LinkedAfterUserUpdate | Capstone/src/main/java/com/example/Capstone/service/EmailVerificationService.java:78 | saving users in place keeps every token linked to a stored user |
| EmailVerification.LinkedAfterTokenUpdate | Capstone/src/main/java/com/example/Capstone/service/EmailVerificationService.java:73 | saving a token of a stored user keeps every token linked |
| EmailVerification.EmailVerificationService.constructor | Capstone/src/main/java/com/example/Capstone/service/EmailVerificationService.java:21-26 | the service starts over linked stores |
| EmailVerification.EmailVerificationService.CreateAndSendVerificationToken | Capstone/src/main/java/com/example/Capstone/service/EmailVerificationService.java:30-44 | the user's old tokens are deleted and exactly one new token, expiring at now + 24h, is appended |
| EmailVerification.EmailVerificationService.VerifyEmail | Capstone/src/main/java/com/example/Capstone/service/EmailVerificationService.java:56-85 | true iff the token is found and valid now; false changes nothing; true marks that token used, sets its user's flag and changes no other row |
| EmailVerification.EmailVerificationService.UseToken | Capstone/src/main/java/com/example/Capstone/service/EmailVerificationService.java:71-78 | the token is marked used and its owner verified |
| EmailVerification.EmailVerificationService.MarkTokenUsed | Capstone/src/main/java/com/example/Capstone/service/EmailVerificationService.java:72-73 | the token's row becomes its marked form and findByToken finds it |
| EmailVerification.EmailVerificationService.MarkOwnerVerified | Capstone/src/main/java/com/example/Capstone/service/EmailVerificationService.java:76-78 | only the owner's row changes, to the same user with the flag set |
| EmailVerification.EmailVerificationService.ResendVerificationEmail | Capstone/src/main/java/com/example/Capstone/service/EmailVerificationService.java:87-105 | UserNotFound iff the email is unknown; AlreadyVerified iff the user is verified; TooManyAttempts iff 3 or more tokens of any user were created in the last hour; errors change nothing; otherwise a token is issued |
| EmailVerification.EmailVerificationService.CleanupExpiredTokens | Capstone/src/main/java/com/example/Capstone/service/EmailVerificationService.java:113-122 | exactly the tokens with expiresAt before now are deleted |
| EmailVerification.VerifyTwice | Capstone/src/main/java/com/example/Capstone/service/EmailVerificationService.java:56-85 | a first verification succeeds iff the token is valid; a second one with the same token at a later time always fails |
| Users.FindById | Capstone/src/main/java/com/example/Capstone/service/UserService.java:53-56 | a found user is stored with that id; nothing is found iff no user has it |
| Users.FindByEmail | Capstone/src/main/java/com/example/Capstone/service/UserService.java:58-61 | a found user is stored with that email; nothing is found iff no user has it |
| Users.FindByIdUnique | Capstone/src/main/java/com/example/Capstone/service/UserService.java:53-56 | with unique ids, findById returns the one user with that id |
| Users.FindByEmailUnique | Capstone/src/main/java/com/example/Capstone/entity/User.java:26-27 | with unique emails, findByEmail returns the one user with that email |
| Users.RegistrationKeepsEmailsUnique | Capstone/src/main/java/com/example/Capstone/service/UserService.java:34-45 | adding a user with a new email keeps emails unique |
| Users.SaveKeepsUnique | Capstone/src/main/java/com/example/Capstone/service/UserService.java:100-101 | overwriting a user, email unchanged, keeps ids and emails unique |
| Users.UserRepository.constructor | Capstone/src/main/java/com/example/Capstone/repository/UserRepository.java:15 | the users table starts empty |
| Users.UserRepository.Insert | Capstone/src/main/java/com/example/Capstone/service/UserService.java:45 | save of a new user appends it under the next id |
| Users.UserRepository.Update | Capstone/src/main/java/com/example/Capstone/service/UserService.java:101 | save of a loaded user overwrites the row with its id and nothing else |
| Users.ConvertToDTO | Capstone/src/main/java/com/example/Capstone/service/UserService.java:115-122 | the DTO copies nome, cognome and email and leaves id, role and the flag unset |
| Users.ConvertToDTOHidesRest | Capstone/src/main/java/com/example/Capstone/service/UserService.java:115-122 | users with the same nome, cognome and email have the same DTO |
| Users.UserService.constructor | Capstone/src/main/java/com/example/Capstone/service/UserService.java:27-30 | the service holds the repository and the encoder |
| Users.UserService.RegisterUser | Capstone/src/main/java/com/example/Capstone/service/UserService.java:33-49 | UserAlreadyExists iff the email is registered, with the store unchanged; otherwise exactly one USER with encode(password) is appended and emails stay unique |
| Users.UserService.FindUserById | Capstone/src/main/java/com/example/Capstone/service/UserService.java:53-56 | UserNotFound iff no user has the id; otherwise the stored user with it |
| Users.UserService.FindUserByEmail | Capstone/src/main/java/com/example/Capstone/service/UserService.java:58-61 | a plain error iff no user has the email; otherwise the stored user with it |
| Users.UserService.GetUserById | Capstone/src/main/java/com/example/Capstone/service/UserService.java:64-68 | UserNotFound iff no user has the id; otherwise that user's DTO |
| Users.UserService.ChangePassword | Capstone/src/main/java/com/example/Capstone/service/UserService.java:91-104 | UserNotFound iff the id is unknown, with the store unchanged; otherwise only that user's password changes, to encode(new), and the answer is "password cambiata" |
| Common.Trim | Capstone/src/main/java/com/example/Capstone/service/RateLimitingService.java:60 | trim never lengthens and leaves no blank at either end |
| Common.TrimKeepsCharacters | Capstone/src/main/java/com/example/Capstone/service/RateLimitingService.java:60 | trim only removes characters |
| Common.TrimIsSlice | Capstone/src/main/java/com/example/Capstone/service/RateLimitingService.java:60 | trim returns the slice between the first and the last non-blank character |
| Common.TrimIdempotent | Capstone/src/main/java/com/example/Capstone/service/RateLimitingService.java:60 | trimming twice is trimming once |
| RateLimiting.FirstSegment | Capstone/src/main/java/com/example/Capstone/service/RateLimitingService.java:60 | the first element of split(",") is the prefix before the first comma, and holds no comma |
| RateLimiting.GetClientIp | Capstone/src/main/java/com/example/Capstone/service/RateLimitingService.java:57-69 | fails (split yields no element) iff X-Forwarded-For is sent and made of commas only |
| RateLimiting.ForwardedIpIsFirstHop | Capstone/src/main/java/com/example/Capstone/service/RateLimitingService.java:58-61 | with X-Forwarded-For sent, the address is the trimmed text before its first comma and contains no comma |
| RateLimiting.ClientIpFallbacks | Capstone/src/main/java/com/example/Capstone/service/RateLimitingService.java:63-68 | without X-Forwarded-For a sent X-Real-IP is returned verbatim, else the remote address; a missing and an empty header behave alike |
| RateLimiting.ClientIpExample | Capstone/src/main/java/com/example/Capstone/service/RateLimitingService.java:57-61 | "::1 ,10.0.0.1" gives "::1" |
| RateLimiting.ClientIpEdgeExamples | Capstone/src/main/java/com/example/Capstone/service/RateLimitingService.java:57-66 | ",," has no first element; an empty X-Forwarded-For falls back to X-Real-IP |
| RateLimiting.Key | Capstone/src/main/java/com/example/Capstone/service/RateLimitingService.java:24-42 | the key is the operation, a colon, then the address |
| RateLimiting.Operation.Prefix | Capstone/src/main/java/com/example/Capstone/service/RateLimitingService.java:24-42 | the key prefixes "registration", "login", "email_resend" and "api" |
| RateLimiting.Operation.Capacity | Capstone/src/main/java/com/example/Capstone/service/RateLimitingService.java:24-44 | 20, 50, 10 and 500 requests per bucket |
| RateLimiting.Operation.RefillMinutes | Capstone/src/main/java/com/example/Capstone/service/RateLimitingService.java:24-44 | refill periods of 15, 60, 60 and 1 minutes |
| RateLimiting.KeyInjective | Capstone/src/main/java/com/example/Capstone/service/RateLimitingService.java:24-42 | for an operation without a colon, the operation and the address can be read back from the key |
| RateLimiting.OperationKeysDistinct | Capstone/src/main/java/com/example/Capstone/service/RateLimitingService.java:22-44 | different operations or different addresses never share a bucket |
| RateLimiting.NewBucket | Capstone/src/main/java/com/example/Capstone/service/RateLimitingService.java:50-55 | a new bucket has the given limit and period and starts full |
| RateLimiting.ContainsAt | Capstone/src/main/java/com/example/Capstone/service/RateLimitingService.java:81 | a key containing the text at some index matches contains |
| RateLimiting.WithoutContaining | Capstone/src/main/java/com/example/Capstone/service/RateLimitingService.java:80-83 | exactly the keys that do not contain the address text remain, with their buckets |
| RateLimiting.KeysOf | Capstone/src/main/java/com/example/Capstone/service/RateLimitingService.java:22-44 | the address's key of each of the four operations, at most four keys |
| RateLimiting.WithoutAddress | Capstone/src/main/java/com/example/Capstone/service/RateLimitingService.java:79-83 | exactly the keys of other addresses remain, with their buckets |
| RateLimiting.ResetAsWrittenHitsOtherAddress | Capstone/src/main/java/com/example/Capstone/service/RateLimitingService.java:80-83 | resetting "10.0.0.1" also drops the bucket of "10.0.0.12" |
| RateLimiting.ResetAsWrittenEmptyClearsAll | Capstone/src/main/java/com/example/Capstone/service/RateLimitingService.java:80-83 | resetting the empty address empties the whole map |
| RateLimiting.ResetOnlyTouchesAddress | Capstone/src/main/java/com/example/Capstone/service/RateLimitingService.java:79-83 | the address-exact reset removes the address's buckets and keeps every other address's bucket |
| RateLimiting.RateLimitingService.constructor | Capstone/src/main/java/com/example/Capstone/service/RateLimitingService.java:20 | the map starts empty |
| RateLimiting.RateLimitingService.GetBucket | Capstone/src/main/java/com/example/Capstone/service/RateLimitingService.java:46-48 | an existing bucket is returned and the map is unchanged; a missing one is created full and added |
| RateLimiting.RateLimitingService.BucketFor | Capstone/src/main/java/com/example/Capstone/service/RateLimitingService.java:22-44 | each operation's bucket for the address, created with that operation's limit and period when absent |
| RateLimiting.RateLimitingService.CleanupOldBuckets | Capstone/src/main/java/com/example/Capstone/service/RateLimitingService.java:72-77 | the map is emptied iff it holds more than 10000 buckets, else unchanged |
| RateLimiting.RateLimitingService.ResetRateLimitForIp | Capstone/src/main/java/com/example/Capstone/service/RateLimitingService.java:80-83 | the map becomes WithoutContaining, so no bucket of the address remains |
| RateLimiting.RateLimitingService.GetRemainingTokens | Capstone/src/main/java/com/example/Capstone/service/RateLimitingService.java:86-90 | -1 iff there is no bucket for operation:ip; otherwise that bucket's available tokens |

## Left out

- HTTP, controllers, the exception handler and logging: errors are `Result` values of a datatype per service.
- The clock: `LocalDate.now()` and `LocalDateTime.now()` are the `today` and `now` parameters. An instant is a whole minute; seconds and nanoseconds are not modelled.
- E-mail sending (EmailService): the model stops where the mail would be sent.
- Token generation (SecureRandom and Base64): the token string is a parameter. CreateAndSendVerificationToken and ResendVerificationEmail require that no stored token already has that string, which the unique column demands and the 256-bit random token makes practically certain.
- Password hashing: `encode` is an uninterpreted function given to the UserService constructor.
- Bucket4j: tryConsume, refill timing and the four `is...Allowed` decisions. A bucket is a record of limit, period and available tokens, and BucketFor stands for the key and limit choice of those four methods.
- Concurrency and transactions: ConcurrentHashMap thread-safety, the read-check-write race on capacity, `@Transactional` and `@Scheduled` timing. Every operation is sequential.
- JPA: aliasing between a loaded entity and its row, dirty checking and lazy loading. A loaded entity is written back by an explicit save, and a menu's dish list is the dishes whose menu id is that menu's.
- Bean Validation on entities and DTOs, except that TableReservationRepository.Valid keeps the party size within the entity's @Min(1) @Max(20).
- ReservationArea is not part of this model's sources; it is taken to be the enum {INDOOR, OUTDOOR}. `toUpperCase` is modelled on ASCII letters only, and strings are sequences of characters with no UTF-16 surrogate handling.
- User: the entity does not declare the emailVerified flag the verification service reads and sets; the model adds it to the user record.
- MenuRequestDTO does not declare the isActive component that MenuService reads; the model treats it as an optional request field.
- DishRequestDTO's category is taken as present, and a dish's price is an opaque integer; Dish.getFormattedPrice and BigDecimal formatting are not modelled.
- MenuService.MenuServiceImpl.ToggleMenuStatus: a null isActive is refused with NullIsActive, standing for the NOT NULL column rejecting the save.
- The read-only queries getAllActiveMenus, getTodaysDailyMenu, getDailyMenuByDate, getCurrentSeasonalMenu, getAllMenus, getMenuById and getMenuStats of MenuService, and getAllReservations, getReservationsByDate and getReservationsByUserId of TableReservationService: they only map stored rows through the conversions modelled here.
- The unused checkCapacity helper of TableReservationService.
- EmailVerificationService.findByToken only delegates to the repository query, which is modelled as TokenStore.FindByToken.
- The repository queries findByUser, findByUserEmail and findByReservationArea, which no core operation uses.
- ReservationService.TableReservationService.UpdateReservation: the capacity invariant is stated only for updates that keep the area and the date, because the written check does not protect the new bucket (see Findings).

## Findings

| source | as written | input that shows it | evidently intended | confidence | as-written member | corrected member |
|---|---|---|---|---|---|---|
| Capstone/src/main/java/com/example/Capstone/service/TableReservationService.java:158-170 | an update that moves a reservation counts the seats of its current (area, date) bucket, minus its old party, plus its new party, against the new area's ceiling; the target bucket is never counted | OUTDOOR on day d holds 40 seats and INDOOR holds one party of 2; changing that party's area to OUTDOOR computes 2 - 2 + 2 <= 40 and passes, leaving OUTDOOR with 42 seats | the new party must fit beside the seats already taken in the target bucket, and within the same bucket the old party is given back first | not executed | ReservationRules.UpdateAsWrittenCanOverbook | ReservationRules.IntendedUpdateKeepsCapacity |
| Capstone/src/main/java/com/example/Capstone/service/RateLimitingService.java:80-83 | resetRateLimitForIp removes every key that contains the address as a substring | resetting "10.0.0.1" also removes the bucket "api:10.0.0.12"; resetting "" removes every bucket | only the buckets of that address (its four operation keys) are removed | not executed | RateLimiting.ResetAsWrittenHitsOtherAddress | RateLimiting.ResetOnlyTouchesAddress |

Both service methods follow the code as written. The update check is ReservationRules.UpdateFitsAsWritten, and the corrected check ReservationRules.UpdateFitsIntended agrees with it whenever the bucket does not change (ReservationRules.SameBucketChecksAgree). The reset is RateLimiting.WithoutContaining, and the corrected reset is RateLimiting.WithoutAddress.
