# Tech-Blog: slugs, the post table and the login check

This project models the core of a small Flask blog in Dafny. Three parts are modelled.

- **`generate_slug`** turns a post title into the URL key under which the post is stored and found. It runs four steps in order:
  1. delete every character that is not a word character, whitespace or `-`;
  2. strip whitespace from both ends;
  3. lower-case the result;
  4. replace every run of `-` and whitespace by a single `-`.

  The model is a set of functions over `seq<char>`, one per step (module `Slug`). The lemmas beside them state what a slug can contain, its fixed points and idempotence, how it reacts to padding, when it is empty, and worked examples.
- **The `posts` table as the route handlers use it** (module `Posts`). The table is a `PostTable` object holding `seq<Post>` in insertion order plus the `AUTO_INCREMENT` counter. The SQL statements the handlers run become functions over rows:
  - `fetchone()` after a `SELECT … WHERE`;
  - `UPDATE … WHERE`;
  - `DELETE … WHERE`;
  - `ORDER BY created_at DESC`.

  `new_post`, `edit_post` and `delete_post` become methods that change the table through them.
- **The credential check of `login`** (module `Auth`): find the first user with the email, then compare the password as a plain string.

`Wrappers` holds the `Option` type that stands for "no row".

Behaviour of the code that the model keeps:
- Slugs keep `_` and digits, because `\w` includes them: `my_first_post` is its own slug (`Slug.SlugKeepsUnderscore`).
- `strip()` removes whitespace only, so a slug may begin or end with `-`: `-draft-` is its own slug (`Slug.SlugKeepsEndHyphens`).
- The code has no slug-collision handling and no unique slug. So several rows may share a slug. The lookup has no `ORDER BY`; the model shows the oldest of them (`Posts.FetchAfterInsert`).
- `models.py` creates `posts` without a `slug` column. The handlers read and write one, so the model gives the table that column, with no constraint on it.
- Passwords are compared in plain text, as the code does, not as salted hashes.

## Model

| member | source | states |
|---|---|---|
| Slug.StripLeadingShape | app/routes.py:45 | `strip()` at the front removes a prefix made only of whitespace, and the rest does not start with whitespace |
| Slug.StripTrailingShape | app/routes.py:45 | `strip()` at the back removes a suffix made only of whitespace, and the rest does not end with whitespace |
| Slug.StripPadded | app/routes.py:45 | stripping ignores any whitespace added on either side |
| Slug.StripTrailingKeepsPrefix | app/routes.py:45 | trailing whitespace is removed only after the last visible character |
| Slug.StripKeepsWords | app/routes.py:45 | stripping loses no word character |
| Slug.RemoveDisallowedKeepsWords | app/routes.py:45 | the first substitution keeps every word character, in order |
| Slug.RemoveDisallowedOnlySpaces | app/routes.py:45 | the first substitution leaves only whitespace exactly when the title has no word character and no `-` |
| Slug.RemoveDisallowedKeepsPrefix | app/routes.py:45 | the first substitution copies a prefix of allowed characters unchanged |
| Slug.RemoveDisallowedDropsPrefix | app/routes.py:45 | the first substitution deletes a prefix of disallowed characters |
| Slug.LowerAt | app/routes.py:45 | `lower()` keeps the length and lower-cases each position |
| Slug.LowerConcat | app/routes.py:45 | `lower()` distributes over concatenation |
| Slug.LowerKeepsWords | app/routes.py:45 | the word characters of the lower-cased text are the lower-cased word characters |
| Slug.LowerNoUpper | app/routes.py:45 | `lower()` leaves text without capitals unchanged |
| Slug.CollapseMatchesRuns | app/routes.py:46 | the left-to-right scan used for step 4 equals replacing each leftmost maximal run of `[-\s]` by one `-`, the regular expression's own reading |
| Slug.CollapseShape | app/routes.py:46 | step 4 gives empty output exactly for empty input; it starts with `-` exactly when the input starts with a separator; it holds only `-` and non-separators taken from the input; it has no `--`; it keeps every non-separator in order |
| Slug.CollapseSkipsRun | app/routes.py:46 | a separator and the run that follows it become one `-` |
| Slug.CollapseFixed | app/routes.py:46 | text with no whitespace and no `--` passes step 4 unchanged |
| Slug.CollapseKeepsWord | app/routes.py:46 | step 4 copies a prefix that holds no separator |
| Slug.CollapseJoinsRun | app/routes.py:46 | a whole run of separators before a non-separator becomes exactly one `-` |
| Slug.SlugAlphabet | app/routes.py:44-47 | every character of a slug is a lower-case ASCII letter, a digit, `_` or `-`; no whitespace survives |
| Slug.SlugNoDoubleHyphen | app/routes.py:44-47 | a slug never holds two adjacent hyphens |
| Slug.SlugIsSlug | app/routes.py:44-47 | every slug has slug characters only and no `--` |
| Slug.SlugFixedPoints | app/routes.py:44-47 | a title is its own slug exactly when it has slug characters only and no `--` |
| Slug.SlugIdempotent | app/routes.py:44-47 | slugging a slug gives it back |
| Slug.SlugIgnoresPadding | app/routes.py:44-47 | whitespace added before and after a title does not change its slug |
| Slug.SlugIgnoresSpaces | app/routes.py:44-47 | `generate_slug(" " + t + " ") == generate_slug(t)` |
| Slug.SlugIgnoresDisallowed | app/routes.py:44-47 | deleting the disallowed characters beforehand does not change the slug |
| Slug.SlugWords | app/routes.py:44-47 | the word characters of the slug are the title's word characters, lower-cased, in order |
| Slug.SlugEmpty | app/routes.py:44-47 | the slug is empty exactly when the title has no word character and no `-` |
| Slug.SlugOfWord | app/routes.py:44-47 | a title made of one word slugs to that word in lower case |
| Slug.SlugOfWordThenRun | app/routes.py:44-47 | a word, a run of spaces and hyphens, then text starting with a word character, slug to the lower-cased word, one `-`, and the slug of the rest |
| Slug.SlugOfPunctuation | app/routes.py:44-47 | `"!!!"` gives the empty slug |
| Slug.SlugOfGreeting | app/routes.py:44-47 | `"Hello, World!"` gives `"hello-world"` |
| Slug.SlugOfSpacedTitle | app/routes.py:44-47 | `"  Multiple   Spaces--and--dashes  "` gives `"multiple-spaces-and-dashes"` |
| Slug.SlugKeepsUnderscore | app/routes.py:44-47 | `"my_first_post"` is its own slug |
| Slug.SlugKeepsEndHyphens | app/routes.py:44-47 | `"-draft-"` is its own slug: hyphens at the ends are not stripped |
| Posts.FirstMatch | app/routes.py:61 | the position of the first row matching the `WHERE` clause, or the table length when no row matches |
| Posts.FetchOne | app/routes.py:59-61 | `fetchone()` returns nothing exactly when no row matches; otherwise it returns a matching row with no matching row before it |
| Posts.PostBySlug | app/routes.py:57-63 | the `post` handler finds a row with the requested slug, or nothing exactly when no row has it |
| Posts.Index | app/routes.py:50-55 | `index` lists every row exactly once (same multiset), newest `created_at` first |
| Posts.InsertByDateSorted | app/routes.py:52 | inserting one row into a newest-first list keeps it newest first |
| Posts.InsertByDateRows | app/routes.py:52 | inserting loses and duplicates no row |
| Posts.UpdateWhere | app/routes.py:130-131 | `UPDATE` sets title, content and slug in exactly the matching rows and leaves every other row as it was |
| Posts.DeleteWhere | app/routes.py:143 | `DELETE` keeps exactly the rows that do not match |
| Posts.PostTable.constructor | app/models.py:13-21 | a new table is empty and its id counter starts at 1 |
| Posts.PostTable.NewPost | app/routes.py:104-107 | `new_post` appends one row with the next id, the given title and content, the slug of the title, the current user as author and the current time; the rows already there are unchanged |
| Posts.PostTable.EditPost | app/routes.py:117-131 | if no row has this slug and this author, `edit_post` changes nothing and reports it; otherwise exactly one such row changes, getting the new title, content and slug of the new title, and every other row is unchanged |
| Posts.PostTable.DeletePost | app/routes.py:142-143 | `delete_post` leaves exactly the rows that do not have both this slug and this author |
| Posts.UpdateOnlyThatRow | app/routes.py:130-131 | updating by the id of the fetched row changes that one row and no other, because ids are unique |
| Posts.UpdateKeepsIds | app/routes.py:130-131 | `UPDATE` changes no id, so ids stay unique, increasing along the table and below the counter |
| Posts.DeleteKeepsIds | app/routes.py:143 | after `DELETE` the ids are still increasing along the table and below the counter |
| Posts.DeleteIdsAbove | app/routes.py:143 | `DELETE` leaves only rows that were there, so a lower bound on ids survives |
| Posts.DeleteIdsBelow | app/routes.py:143 | `DELETE` keeps ids below the counter |
| Posts.DeleteNothingMatches | app/routes.py:143 | when no row has this slug and author, for instance when the author is wrong, `DELETE` leaves the table as it was |
| Posts.DeleteThenFetch | app/routes.py:143 | after `delete_post`, no row with that slug and author remains for `edit_post` to find |
| Posts.FetchAfterInsert | app/routes.py:106-107 | inserting a row never changes what an existing lookup finds; the new row is found only when nothing older matches |
| Auth.FirstWithEmail | app/routes.py:70-71 | the position of the first user with this email, or the table length when there is none |
| Auth.UserByEmail | app/routes.py:70-71 | the lookup returns nothing exactly when no user has the email; otherwise the first user who has it |
| Auth.Login | app/routes.py:70-73 | a login succeeds with the user the email lookup found, who is in the table and has this email and this password; it fails exactly when no user has the email or the user found has another password |
| Auth.LoginExactly | app/routes.py:70-73 | with unique emails, as the `users` table declares, a login succeeds exactly when some user has both this email and this password, and it logs in that user |

## Left out

- HTTP and UI plumbing is not modelled: Flask routing, `render_template`, `flash`, `redirect`, `url_for` and `@login_required`. The handlers are modelled for a logged-in user whose id is passed in.
- Posts.PostBySlug, Posts.PostTable.EditPost and Posts.PostTable.DeletePost accept any slug, the empty one included. In the program, the routes `/post/<slug>`, `/edit_post/<slug>` and `/delete_post/<slug>` use the default string converter, so only a non-empty slug without `/` reaches these handlers. A post whose title has no word character and no `-`, such as `"!!!"`, gets the empty slug (`Slug.SlugOfPunctuation`). It is inserted, but can then never be shown, edited or deleted through the app; the model's handlers would still find it. Step 1 deletes `/`, so a slug never holds one.
- WTForms forms and validators (`DataRequired`, `Email`, `EqualTo`) are left out because they are declarative library validation. `NewPost` and `EditPost` model a submission that passed validation. The form shown on a plain GET is not modelled.
- Flask-Login sessions (`login_user`, `logout_user`, `load_user`) are left out as foreign library calls. So are `register` and `logout`: `Login` returns the user who would be logged in.
- MySQL connections, cursors, `commit`, transactions and concurrent requests are left out as I/O. Each handler is modelled as one atomic change of the table.
- `create_tables` (the DDL in app/models.py) is left out because it only creates the tables. The model keeps the columns of `posts`, the primary key and the `AUTO_INCREMENT` ids starting at 1. The `UNIQUE` email is assumed by `Auth.LoginExactly`, not kept as a table invariant. It also adds the `slug` column that the DDL lacks but the handlers use.
- Slug.IsWord: Python's `\w` is restricted to ASCII letters, digits and `_`. Non-ASCII letters, digits and numerics (such as `é`, `²` or `٣`), which Python keeps, are deleted in the model.
- Slug.SlugIdempotent: idempotence, and likewise Slug.SlugFixedPoints, is proved for the ASCII model only. In Python it fails on U+0130 (`İ`): step 1 keeps it, `lower()` turns it into `i` followed by U+0307, and U+0307 is neither `\w` nor `\s`, so `generate_slug("İ")` is `"i\u0307"` while `generate_slug("i\u0307")` is `"i"`.
- Slug.Lower: `str.lower()` is modelled on ASCII only. This is exact on everything the model's step 1 lets through.
- Slug.IsSpace: `\s` and `strip()` are modelled by the fixed list of whitespace characters that Python uses for text. No Unicode database is consulted.
- SQL string comparison in MySQL depends on the column collation: it is usually case-insensitive, and it may be accent-insensitive or ignore trailing spaces. The model compares slugs and emails as exact strings.
- Posts.FetchOne: the `SELECT … WHERE` queries behind `post` and `edit_post` have no `ORDER BY`, so the database leaves open which matching row `fetchone()` returns. The model returns the first in table order. `PostBySlug` and `EditPost` promise only "some matching row".
- Posts.Index: MySQL does not fix the order of rows with equal `created_at`. The model picks one order, so only "newest first" and "every row once" are stated.
- `created_at` is the time of the insert, and `NewPost` takes it as the parameter `now`. The clock itself is not modelled.
- Posts.PostTable.NewPost: the column widths are not modelled. `title` is `VARCHAR(200)` and `content` is `TEXT`, and the post form has no length validator. So MySQL refuses a longer title under strict mode, or truncates it otherwise. The model stores the title and content as given.
- Posts.PostTable.EditPost: the same column widths are not modelled for the `UPDATE`. A title over 200 characters is stored as given.
- The `UNIQUE` constraint on `username` is not modelled, because only `register` relies on it.
- Ids and counters are unbounded `nat`s. The 32-bit `INT` limit of the id column is not modelled.
- The foreign key from `author_id` to `users.id`, and the `NOT NULL` constraints, are not modelled: the handlers always supply these values.
- A slug-collision policy is not modelled because the code has none. This covers suffixing, retries and a unique slug index; the model keeps duplicates.
