# Volunteering app: bookmarks and credential check

This project models two pieces of the volunteering app's client logic: the
bookmark toggle and the login credential check.

- **Bookmarks** (`bookmarks.dfy`, module `Bookmarks`). The bookmark context holds a list
  of bookmarked opportunity names. The list starts empty. `toggleBookmark(name)`
  replaces it with a new list. If `name` is bookmarked, the new list drops every
  copy of it. Otherwise the new list is the old one with `name` appended. The held
  state is the class `BookmarkStore` with the field `bookmarked: seq<string>`.
  Its method `Toggle` is specified by the pure function `ToggleSeq`. Inside
  `ToggleSeq`, the updater's `prev.includes(name)` is `name in prev`, and
  `Without` models `filter`. The lemmas prove what a toggle keeps and what it
  changes. Its invariant `Valid()` (no duplicates) holds from the empty start
  and through every toggle.
- **Login** (`login.dfy`, module `Login`). `handleLogin` first rejects the attempt
  when the email or the password input is empty, before anything is fetched.
  Otherwise it searches the fetched user rows for the first row whose `email`
  equals the input ignoring case and whose `password` equals the input exactly.
  `HandleLogin(email, password, users)` returns `MissingInfo`, `LoggedIn(user)` or
  `InvalidCredentials`. A row that lacks the `email` or the `password` column,
  or holds `null` there, has `None` there, and such a row never matches: `?.`
  stops at `null` as at `undefined`, and neither equals a string. `toLowerCase` is modelled as
  ASCII case folding (`Lower`).

The fetched user list is a parameter of `HandleLogin`. The fetch itself, alerts and
navigation are not modelled.

## Model

| member | source | states |
|---|---|---|
| Bookmarks.Without | projectservve/context/BookMarkContext.js:11 | filtering out `x` leaves no copy of `x`, keeps every other name present exactly as often as before (multiset equality), and never lengthens the list |
| Bookmarks.ToggleSeq | projectservve/context/BookMarkContext.js:9-13 | membership of the toggled name flips; every other name keeps its presence; a present name is removed with all its copies; an absent name becomes the last element after the untouched old list |
| Bookmarks.WithoutKeepsOrder | projectservve/context/BookMarkContext.js:11 | for names other than the filtered one, "y occurs before z" holds after filtering exactly when it held before |
| Bookmarks.ToggleKeepsOrder | projectservve/context/BookMarkContext.js:10-12 | in both branches of a toggle, the relative order of any two other names is unchanged in both directions |
| Bookmarks.ToggleTwiceAbsent | projectservve/context/BookMarkContext.js:10-12 | toggling a name that is not bookmarked twice gives back exactly the original list |
| Bookmarks.ToggleNoDuplicates | projectservve/context/BookMarkContext.js:10-12 | a toggle of a duplicate-free list gives a duplicate-free list |
| Bookmarks.ToggleLength | projectservve/context/BookMarkContext.js:10-12 | on a duplicate-free list, a toggle makes the list one shorter when the name was present and one longer when it was absent |
| Bookmarks.ToggleAll | projectservve/context/BookMarkContext.js:8-13 | after a run of toggles, a name is bookmarked exactly when it was bookmarked before and was toggled an even number of times, or was not and was toggled an odd number of times; from the initial `[]`, exactly the names toggled an odd number of times |
| Bookmarks.ToggleAllNoDuplicates | projectservve/context/BookMarkContext.js:8-13 | any run of toggles from a duplicate-free list yields a duplicate-free list |
| Bookmarks.ReachableNoDuplicates | projectservve/context/BookMarkContext.js:6-13 | every list reachable from the initial `[]` by toggles has no duplicates |
| Bookmarks.BookmarkStore.constructor | projectservve/context/BookMarkContext.js:6 | the bookmark state starts as the empty list, which satisfies the no-duplicates invariant |
| Bookmarks.BookmarkStore.Toggle | projectservve/context/BookMarkContext.js:8-14 | the new state is the updater's result on the old state; the invariant is kept; membership of the name flips, other names keep their presence, and the length changes by one |
| Login.LowerChar | projectservve/app/loginscreen.js:22 | one character of `toLowerCase`: the result is never an ASCII capital; a capital maps to its lower-case letter (32 code points up) and every other character is unchanged |
| Login.Lower | projectservve/app/loginscreen.js:22 | a lower-cased string keeps its length and holds no ASCII capital, and a string without capitals is left unchanged |
| Login.LowerIdempotent | projectservve/app/loginscreen.js:22 | lower-casing twice gives the same string as lower-casing once |
| Login.LowerFixedPoints | projectservve/app/loginscreen.js:22 | a string equals its lower-cased form exactly when it holds no ASCII capital |
| Login.SameIgnoringCase | projectservve/app/loginscreen.js:22 | the `===` of the two lower-cased emails holds exactly when the lengths agree and the characters agree position by position with ASCII case ignored |
| Login.LowerCharSame | projectservve/app/loginscreen.js:22 | two characters compare equal ignoring case exactly when they are equal or one is the ASCII capital of the other |
| Login.Matches | projectservve/app/loginscreen.js:21-23 | a row matches exactly when it has an email that agrees with the input character by character up to ASCII case and a password equal to the input; a row without an email or without a password never matches |
| Login.FindFirst | projectservve/app/loginscreen.js:21-24 | a returned index is in range and is a matching row with no matching row before it; no index is returned only when no row matches |
| Login.HandleLogin | projectservve/app/loginscreen.js:12-31 | the outcome is "missing info" exactly when a field is empty; "invalid credentials" exactly when both fields are filled and no row matches; a logged-in user is a row of the list that has an email equal to the input ignoring case and a password equal to the input, and no earlier row matches |
| Login.MissingInfoIgnoresUsers | projectservve/app/loginscreen.js:12-15 | with an empty field the outcome is "missing info" whatever the user list holds |
| Login.EmailCaseIgnored | projectservve/app/loginscreen.js:22 | two input emails that differ only in letter case give the same outcome |
| Login.PasswordCaseSensitive | projectservve/app/loginscreen.js:23 | for every row and every input email, an input password different from the stored one (letter case included) does not match |
| Login.FirstMatchWins | projectservve/app/loginscreen.js:21-28 | when several rows match, the first of them in list order is the one logged in |
| Login.LaterRowsIgnored | projectservve/app/loginscreen.js:21-28 | once the list holds a match, appending further rows does not change the outcome |

## Left out

- Fetching the user sheet, `res.json()` and the `catch` branch that reports a failed fetch (projectservve/app/loginscreen.js:17-19, 33-36): these are I/O. `HandleLogin` receives the parsed rows as a parameter.
- `Alert.alert`, `console.error`, `setUser` and `navigation.navigate`: UI side effects. The user that `setUser` receives is the row in `LoggedIn`.
- The React context plumbing (`createContext`, `BookmarkProvider`, `useBookmarks`): framework wrappers.
- Login.Lower: models ASCII case folding only; JavaScript's `toLowerCase` also folds non-ASCII letters, which this model treats as having no case.
- Rows whose `email` or `password` is not a string (a number in the sheet, say): the model types both columns as optional strings. In the source a non-string `email` other than `null` makes `toLowerCase` throw, which lands in the fetch-failure branch, but only in a row that `find` reaches before the first match. A non-string `password` never throws; it never equals the input string, exactly like a missing one (`None`).
- Bookmark names are typed as strings. `toggleBookmark` accepts any JavaScript value, and for `NaN` `includes` (which finds `NaN`) and the `filter` test `n !== name` (which never drops it) disagree: toggling a present `NaN` leaves the list unchanged. The model has no such value.
- Bookmarks.BookmarkStore.Toggle: applies the updater at once; React queues the updater passed to `setBookmarked` and applies it on the next render, so the model does not capture when the new list becomes visible, only what it is. Queued updaters run in order, each on its predecessor's result, which is what `ToggleAll` describes.
- The other screens (calendar, profile, home, attendance, signup, details, layouts and the alternative login screen under `app/(tabs)/`) are not part of this model.
- Other client computations are outside this model: the attendance-code lookup with `parseFloat` of the hours (projectservve/app/(tabs)/attendanceview.js:29-35), the hours sum by `reduce` (projectservve/app/(tabs)/profile.js:63-66) and the timestamp parsing of the opportunity list (projectservve/app/(tabs)/favouriteScreen.js:22-32).
