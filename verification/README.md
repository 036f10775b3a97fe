# Website builder core, modelled in Dafny

This project models the core of an AI website builder.

- **Server.** Two controllers do the server's work. An authenticated user spends credits to create a website project from a prompt, or to revise one with a chat message. A text generator writes the site's HTML, and the reply is cleaned of Markdown code fences before it is stored. Every generation is kept as a version. The owner can roll back to any version, save hand-edited code, publish the project, or delete it. Published projects are served to anyone.
- **Client.** The model covers how a project's HTML is wrapped for preview: the project cards add a selection script, and so does the editor iframe. It also covers how a selected element is normalised, and on which routes the navigation bar is hidden.

## How the model is built

- **The store.** All persisted records form one immutable `Store.Store`: users, and projects with their conversations and versions. A logical clock `next` issues every id and timestamp.
- **Controllers.** Each controller is a pure function from the store, the request and an `Oracle` to an `Outcome`: the HTTP status sent (or `NoReply`) and the new store.
- **The oracle.** It holds the generator's two replies and names the awaited call that throws, if any. A throw runs the controller's catch block.
- **Invariant.** `Store.Valid` holds that entries and versions are in increasing timestamp order and that a linked `current_version_index` agrees with the live code. Every writing controller is proved to keep it.
- **History.** `Store.Grows` holds that records are only appended. Every writing controller is proved to keep it. `Grows` speaks only of projects present before and after, so it also holds across a deletion.

Modules:

| module | models |
|---|---|
| `Text` | JavaScript's `includes`, `indexOf`, `replace` with a string pattern, `startsWith`, `trim` |
| `Sanitizer` | the code clean-up both generation runs apply |
| `Store` | the records and the single storage writes |
| `Pipeline` | awaited calls that may throw, and the refunding catch block |
| `Generation` | the tail makeRevision and createUserProject share once the code reply is in |
| `Listing` | `findMany` ordered by a timestamp, descending |
| `ProjectController` | the controllers of projectController.ts |
| `UserController` | the controllers of userController.ts |
| `ReadsAfterWrites` | what the read endpoints return after each write |
| `CardPreview`, `ProjectPreview`, `AppShell` | the client functions |

## Model

| member | source | states |
|---|---|---|
| Text.IndexOf | client/src/pages/MyProjects.tsx:56 | the index found is present exactly when `p` occurs in `s`, and it is the first occurrence |
| Text.ReplaceFirst | client/src/pages/MyProjects.tsx:57 | with no occurrence the string is unchanged; otherwise only the first occurrence is replaced |
| Text.ReplaceBeforeIsInsert | client/src/pages/MyProjects.tsx:57 | replacing the first `p` by `x + p` inserts `x` right before that occurrence and changes nothing else |
| Text.TrimEmptyIffAllSpace | server/controllers/projectController.ts:26 | `message.trim().length===0` holds exactly when every character is white space or a line terminator |
| Text.TrimIsInfix | server/controllers/projectController.ts:156 | `trim` removes only white space, and only from the two ends |
| Text.TrimTrimmed | server/controllers/projectController.ts:156 | the result of `trim` has no trimmable character at either end |
| Text.TrimKeepsTrimmed | server/controllers/projectController.ts:156 | `trim` is the identity on already trimmed text |
| Text.TrimDropsTrailing | server/controllers/projectController.ts:156 | white space after trimmed text is removed completely |
| Sanitizer.StripFences | server/controllers/projectController.ts:156 | the `/```[a-z]*\n?/gi` replacement never lengthens the text |
| Sanitizer.StripFencesFenceFree | server/controllers/projectController.ts:156 | after the global fence replacement no three backticks remain in a row |
| Sanitizer.StripFencesKeepsFenceFree | server/controllers/projectController.ts:156 | text without a fence is left unchanged by the fence replacement |
| Sanitizer.DropClosingFence | server/controllers/projectController.ts:156 | `replace(/```$/g,'')` removes at most one fence, and only at the very end |
| Sanitizer.SanitizeFenceFree | server/controllers/projectController.ts:156 | stored code never contains a code fence |
| Sanitizer.SanitizeTrimmed | server/controllers/projectController.ts:175 | stored code has no white space at either end |
| Sanitizer.SanitizeKeepsPlainCode | server/controllers/userController.ts:178 | code with no fence and no surrounding white space is stored exactly as the generator sent it |
| Sanitizer.SanitizeIdempotent | server/controllers/projectController.ts:156 | sanitising stored code again changes nothing |
| Sanitizer.SanitizeUnwrapsFencedBlock | server/controllers/userController.ts:178 | a reply wrapped in one Markdown code block with a language tag is stored as the block's body |
| Sanitizer.SanitizeBareFence | server/controllers/projectController.ts:156 | a reply that is only a fence sanitises to the empty string |
| Store.Apply | server/controllers/projectController.ts:44-61 | a storage write never adds or removes a user and never moves the clock back; a write the database rejects is `None` |
| Store.FindVersion | server/controllers/projectController.ts:226 | `versions.find` returns a version with the requested id, or none exists |
| Store.ApplyKeepsValid | server/controllers/projectController.ts:154-178 | every single storage write keeps timestamps ordered and a linked version pointer consistent with the live code |
| Store.ApplyGrows | server/controllers/projectController.ts:44-178 | a write only appends: owners, conversations and versions of surviving projects are prefixes of the new ones |
| Pipeline.CatchRefund | server/controllers/projectController.ts:184-197 | the catch block gives the user `Cost` credits back whether or not they were taken; it answers 500, or sends nothing when the user record is missing |
| Pipeline.Exec | server/controllers/projectController.ts:44-178 | once an awaited call throws, the later calls do not run; a throw inside the batch makes the run throw |
| Pipeline.ExecAppend | server/controllers/projectController.ts:44-178 | running two stretches of calls in turn is running them as one |
| Pipeline.ExecKeepsValid | server/controllers/projectController.ts:44-178 | any sequence of plain writes keeps the invariant and only appends |
| Generation.ConcludeCredits | server/controllers/projectController.ts:131-197 | after the code reply the user ends `Cost` richer exactly when something threw or the reply was empty; the refund is never applied twice |
| Generation.ConcludeCommits | server/controllers/projectController.ts:154-182 | a non-empty reply with no throw appends the version, logs the completion entry and points the project at that version |
| Generation.ConcludeGivesUp | server/controllers/projectController.ts:133-152 | an empty reply logs the failure entry and refunds the debit |
| Generation.CommitThrowsAfterVersion | server/controllers/projectController.ts:154-168 | a commit that throws after the version row keeps that row, but the live code and the pointer stay as they were |
| Generation.ConcludeKeepsValid | server/controllers/projectController.ts:131-197 | the shared tail keeps the invariant, commit or not |
| Generation.NewVersionFits | server/controllers/projectController.ts:170-178 | the pointer update names the version the same run has just created, holding the same code |
| ProjectController.MakeRevisionRejects | server/controllers/projectController.ts:18-42 | 401, 403, 400 and 404 each arise exactly under their condition, in source order, and change nothing |
| ProjectController.PreludeEffect | server/controllers/projectController.ts:44-103 | the calls before code generation log the message, debit `Cost`, then log two assistant entries; which of them ran depends on where the throw falls |
| ProjectController.MakeRevisionCommits | server/controllers/projectController.ts:44-182 | a revision with code and no throw answers 200, charges `Cost`, logs four entries and appends one version holding the sanitised reply, which becomes current |
| ProjectController.MakeRevisionEmptyReply | server/controllers/projectController.ts:133-152 | an empty reply sends no response, logs the failure after the prelude entries and restores the credits; code, pointer and versions are untouched |
| ProjectController.MakeRevisionCommitsFenceOnlyReply | server/controllers/projectController.ts:131-160 | emptiness is tested before sanitising, so a bare fence commits a version with empty code |
| ProjectController.MakeRevisionCredits | server/controllers/projectController.ts:22-197 | the change in credits per status: a commit -5, a rejection or empty reply 0, a 500 +5 when the throw came before the debit completed and 0 after; no other user changes |
| ProjectController.MakeRevisionLogsBeforeDebit | server/controllers/projectController.ts:44-61 | when the debit throws, the message is already logged and the user is `Cost` richer |
| ProjectController.MakeRevisionThrowAfterVersion | server/controllers/projectController.ts:154-197 | a throw at the completion entry or the pointer update answers 500; the new version stays but is not current, the live code and pointer are unchanged, and the refund leaves the user's credits as before the request |
| ProjectController.MakeRevisionKeepsValid | server/controllers/projectController.ts:6-198 | makeRevision keeps the store invariant and only appends |
| ProjectController.RollbackRejects | server/controllers/projectController.ts:212-230 | 404 exactly when the project is not the caller's or lacks the version, and then nothing changes |
| ProjectController.RollbackMovesPointer | server/controllers/projectController.ts:232-253 | a successful rollback makes the version's code live and the version current, appends one entry, and keeps versions, users and other projects |
| ProjectController.RollbackKeepsValid | server/controllers/projectController.ts:202-259 | rollback keeps the invariant and only appends |
| ProjectController.DeleteProjectOwnerOnly | server/controllers/projectController.ts:262-286 | deletion succeeds exactly for the caller's own project and removes only it; otherwise it answers 500 and nothing changes |
| ProjectController.DeleteProjectKeepsValid | server/controllers/projectController.ts:262-286 | deletion keeps the invariant; surviving projects are untouched |
| ProjectController.SaveProjectCodeUnlinks | server/controllers/projectController.ts:369-413 | 401, 400 and 404 each arise exactly under their condition; a save makes the code live, unlinks it from every version, and adds no version or entry |
| ProjectController.SaveProjectCodeKeepsValid | server/controllers/projectController.ts:394-403 | a save keeps the invariant; clearing the pointer never breaks pointer consistency |
| ProjectController.ProjectPreview | server/controllers/projectController.ts:289-320 | 200 with the project exactly for its owner, 401 without identity, otherwise 404 |
| ProjectController.ProjectCodeById | server/controllers/projectController.ts:346-366 | the code is served, to anyone, exactly when the project is published and has non-empty live code; otherwise 404 |
| ProjectController.PublishedProjects | server/controllers/projectController.ts:324-343 | every published project is listed exactly once, only published ones, newest created first |
| UserController.UserCredits | server/controllers/userController.ts:7-26 | 401 without identity; the credits of the caller's record, or none when there is no record |
| UserController.ProjectName | server/controllers/userController.ts:47 | a prompt of at most 50 characters is the name; a longer one is cut to its first 50 characters plus "..." |
| UserController.CreateUserProjectRejects | server/controllers/userController.ts:29-43 | 401 exactly without identity; 403 exactly for a record with fewer than 5 credits; neither changes anything |
| UserController.CreateUserProjectNeedsAccount | server/controllers/userController.ts:37-59 | an identity without a user record gets no response and changes nothing |
| UserController.CreateUserProjectCreates | server/controllers/userController.ts:45-198 | creation with code and no throw answers 200 and adds exactly one project, owned by the caller; its only version holds the sanitised reply and is current; the user pays 5 and counts one more creation |
| UserController.CreateUserProjectEmptyReply | server/controllers/userController.ts:155-174 | an empty reply keeps the 200 already sent, leaves the project without code or version, logs the failure and refunds the debit; the creation count keeps its increment |
| UserController.CreateUserProjectCredits | server/controllers/userController.ts:29-209 | the change in credits and the status for each way a creation can end; the status is 200 exactly when the prompt was logged; no other user changes |
| UserController.CreateUserProjectThrowAtDebit | server/controllers/userController.ts:45-59 | a throw at the debit answers 500, leaves the created project in the store, and refunds `Cost` credits that were never taken |
| UserController.CreateUserProjectThrowAfterVersion | server/controllers/userController.ts:176-209 | a throw after the version row keeps the 200 already sent; the project holds that version but no live code or pointer, and the refund cancels the debit while the creation count keeps its increment |
| UserController.CreateUserProjectKeepsValid | server/controllers/userController.ts:29-210 | createUserProject keeps the invariant and only appends |
| UserController.UserProject | server/controllers/userController.ts:213-250 | the project for its owner; another user's or a missing project is 200 with no project |
| UserController.UserProjects | server/controllers/userController.ts:253-279 | every project of the caller is listed exactly once, only theirs, most recently updated first |
| UserController.TogglePublishFlips | server/controllers/userController.ts:282-315 | 404 exactly for a project that is not the caller's; success flips `isPublished` and changes nothing else but the update time |
| UserController.TogglePublishTwice | server/controllers/userController.ts:302-307 | toggling twice restores the published flag |
| UserController.TogglePublishKeepsValid | server/controllers/userController.ts:282-315 | toggling keeps the invariant and only appends |
| ReadsAfterWrites.SaveThenRead | server/controllers/projectController.ts:394-403 | after a save, the owner's reads show the saved code, and the public endpoint serves it exactly when the project is published |
| ReadsAfterWrites.DeleteThenRead | server/controllers/projectController.ts:271-277 | after a delete, every read answers as for a missing project |
| ReadsAfterWrites.ToggleThenServe | server/controllers/userController.ts:302-307 | after a toggle, the public endpoint serves the code exactly when the project was unpublished and has live code |
| ReadsAfterWrites.CreateThenRead | server/controllers/userController.ts:45-198 | after a committed creation, the credits read reports 5 fewer, and the new project reads back with the sanitised code as its only version |
| ReadsAfterWrites.ReviseThenRead | server/controllers/projectController.ts:154-178 | after a committed revision, the preview shows the sanitised code, held by the newest version, which is current |
| Listing.NewestFirst | server/controllers/projectController.ts:326-334 | the ids the filter keeps, each exactly once, in non-increasing key order |
| Listing.InsertByKey | server/controllers/projectController.ts:330-332 | inserting into a descending list keeps it descending and adds exactly the one id |
| CardPreview.BuildPreviewHtml | client/src/pages/MyProjects.tsx:54-63 | an empty page becomes the placeholder; otherwise the script is inserted before the first `</body>`, else before the first `</html>`, else at the end |
| CardPreview.BuildPreviewHtmlRoundTrip | client/src/pages/Community.tsx:35-44 | cutting the script back out at its anchor gives the original page, and with a body the script sits right before `</body>` |
| ProjectPreview.InjectPreview | client/src/components/ProjectPreview.tsx:100-110 | empty stays empty; without the editor panel the page is unchanged; otherwise the script goes before the first `</body>`, else at the end |
| ProjectPreview.InjectAgreesWithCards | client/src/components/ProjectPreview.tsx:100-110 | the editor and the cards place the script the same way whenever the page has `</body>` or has no `</html>` |
| ProjectPreview.InjectDiffersWithoutBody | client/src/components/ProjectPreview.tsx:104-109 | for every page with `</html>` but no `</body>`, the editor (with its panel shown) appends the script at the end of the page while the cards insert it before the first `</html>`; the two pages differ for every non-empty script that does not itself contain `</html>` |
| ProjectPreview.InsertBeforeTagDiffers | client/src/components/ProjectPreview.tsx:104-109 | a non-empty script inserted before a `</html>` never gives the page with the script appended at the end, unless the script contains `</html>` |
| ProjectPreview.InjectDiffersExample | client/src/components/ProjectPreview.tsx:104-109 | the smallest such page, `<html></html>`, already shows the disagreement |
| ProjectPreview.TransformElement | client/src/components/ProjectPreview.tsx:68-98 | null only for a falsy element; every field is truthy or `''`; a payload's `text` is kept unless null or undefined; a DOM element gives its `textContent` and inline styles |
| ProjectPreview.TransformRoundTrip | client/src/components/ProjectPreview.tsx:70-83 | a normalised selection posted back normalises to itself |
| ProjectPreview.TransformIdempotent | client/src/components/ProjectPreview.tsx:68-98 | normalising what normalisation produced changes nothing |
| AppShell.HideNavbar | client/src/App.tsx:19 | the bar is hidden exactly on paths starting with `/auth`, `/preview/`, `/view/` or `/projects/` |
| AppShell.HideNavbarExamples | client/src/App.tsx:19 | the bar shows on `/projects`, `/` and `/community`, and hides on `/projects/7`, `/preview/7` and `/authors` |

## Left out

- purchaseCredits (server/controllers/userController.ts:318) has an empty body, so there is nothing to model.
- Console logging, the generator's system prompts and model names, and the request and response wire formats are left out. Only statuses and stored data are modelled.
- The text generator is not modelled. Its two replies are oracle inputs. Only the code reply is defaulted: a `null` or missing code reply becomes the empty string through `|| ''` (server/controllers/projectController.ts:131, server/controllers/userController.ts:152). The enhanced reply is not defaulted: it is interpolated into the logged assistant entry as it comes, so a `null` one is logged as the text `null` (server/controllers/projectController.ts:87-92, server/controllers/userController.ts:95-101); the oracle's `enhanced` string stands for that text. The `|| ''` at server/controllers/userController.ts:147 only shapes what is sent to the generator, which is not modelled.
- Concurrency is not modelled: each request runs atomically against the store.
- Real timestamps and database-generated ids are replaced by one logical clock. Every write advances it, so "ordered by timestamp" means "ordered by id".
- Ties in `orderBy` are left in an unspecified order, as the database leaves them.
- `include: {user: true}` is not modelled. Read answers carry the project record only.
- Reads do not model storage failures. getProjectPreview, getUserProject, getUserProjects, getPublishedProjects and getProjectCodeById never answer 500 here.
- Only a missing user record is modelled as a second failure inside a catch block. Both catch blocks refund with `user.update`, which throws for a missing record; the request then sends no response.
- Request bodies that are not strings are not modelled. The message, prompt and code are an optional string. For makeRevision this hides a credit mint: a truthy `message` that is not a string makes `message.trim()` throw (server/controllers/projectController.ts:26), and the catch block (server/controllers/projectController.ts:184-197) then answers 500 and refunds `Cost` credits that were never debited. That is the same outcome `ProjectController.MakeRevisionCredits` states for a throw before the debit. For createUserProject a prompt that is not a string is the `None` prompt, which the model covers.
- String lengths count characters, not UTF-16 code units. Replacement strings are taken literally; no `$&` patterns are expanded.
- The `iframeScript` text is a parameter of the client functions, since its content does not affect where it is placed.
- The JavaScript values `transformElement` sees are modelled as undefined, null, booleans, integers, strings and objects. NaN and non-integer numbers are left out.
- Deleting another user's project, or a missing one, answers 500 rather than 404: the delete filter finds no record and throws, and the catch block answers 500.
- An empty code reply during makeRevision sends no response at all: the controller logs the failure and refunds, but never answers the request.
