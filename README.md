# Warehouse RFID backend: the store behind the Tag, Item and Device routes

This project models the request handlers of a warehouse backend. RFID tags, items and devices are stored in a document store. The model covers what the handlers do to the three collections and which status each one answers with (200, 201, 204, 400, 404, 500).

- **Tags** are found or created by their physical identifier (`uid`). A hit answers 200 and stores nothing. A miss stores exactly one new tag of type `unknown` with no item and answers 201.
- **Tag updates** overwrite both `type` and `item` with what the request sends, so a request without `item` clears the reference.
- **Deleting an item** removes it and answers 204. A second, separate write then resets the first tag that references the item to `{type: unknown, item: unset}`. The 204 does not depend on that second write.
- **Items and devices** have plain get, update and delete. A device update changes only `allowed`.
- **Device self-report** (`info`) overwrites `serial_number` and `version`. Every other action type does nothing.

## Structure

- `tables.dfy` (`Tables`): one collection as a value. It holds the documents keyed by id plus their insertion order, which is the store's natural order. It provides the store calls the handlers use: insert, overwrite, remove, a listing after `skip`, and the single-document query (`findOne`, or an `update` without `multi`) that picks the first match in natural order.
- `records.dfy` (`Records`): the documents, the outcome codes, the store's possible answers to a save, the `type` enumeration, and the tag invariants.
- `database.dfy` (`Database`): the `Store` class that every handler gets. Its four fields (tags, items, devices, next id) are updated in place.
- `queries.dfy` (`Queries`): the `skip` cursor (default 0, minimum 0).
- `tags.dfy`, `items.dfy`, `devices.dfy` (`TagRoutes`, `ItemRoutes`, `DeviceRoutes`): one module per route file.
  - Each state-changing route is a `method` on the store.
  - Each such method is proved equal to a step function on the store's snapshot (`Db`). The step functions' contracts state the outcomes.
  - Read-only routes are methods whose contracts state the answer directly.
- `basic.dfy` (`DeviceActions`): the device document as a class whose fields `info` assigns, and the `actions` dispatch.
- `lifecycle.dfy` (`Lifecycle`): properties across several requests.
  - Any sequence of requests keeps both tag invariants, as long as every tag update respects the invariant.
  - An end-to-end scenario: create an item, look up a new uid, bind the tag to the item, delete the item.

The persistence layer's behaviour outside the tables is a parameter of each handler:
- `findFails` or `fails`: the store call reports an error.
- `SaveReply`: a save succeeds, fails, or returns neither an error nor a document.

Store ids come from a counter. It is fresh for tags and items.

## Model

| member | source | states |
|---|---|---|
| Tables.Table.Insert | src/Server/routes/v1/tags.js:150-153 | saving a new document stores it under an unused id, keeps the table well formed, and appends it to the natural order |
| Tables.Table.Put | src/Server/routes/v1/tags.js:223 | saving an existing document overwrites only that id; its place in natural order and all other documents stay |
| Tables.Table.Remove | src/Server/routes/v1/tags.js:265 | `findByIdAndRemove` deletes only that id; the other documents keep their relative order; a missing id leaves the table as it was |
| Tables.Table.Listing | src/Server/routes/v1/tags.js:62 | a `find` with a `skip` cursor answers the documents in natural order after the first `skip`; `skip` 0 answers all of them |
| Tables.Table.FirstFrom | src/Server/routes/v1/tags.js:145 | the position found is the first from the start point whose document matches, or the end when none matches |
| Tables.Table.FirstWhere | src/Server/routes/v1/tags.js:145 | a single-document query answers a matching document that no earlier document matches; it answers none only when no document matches |
| Tables.FirstWhereInsert | src/Server/routes/v1/tags.js:149-161 | inserting a document changes a single-document query's answer only when nothing matched before and the new document matches |
| Tables.FirstWhereSole | src/Server/routes/v1/items.js:281 | when exactly one document matches, the single-document query finds that one |
| Records.ParseType | src/Server/routes/v1/tags.js:191-194 | a `type` is accepted exactly when it is `unknown`, `item` or `mode`, and it maps back to the same spelling |
| Records.ParseTypeName | src/Server/routes/v1/tags.js:191-194 | every tag type's spelling is accepted back as that type |
| Queries.ParseSkip | src/Server/routes/v1/items.js:62-67 | an absent `skip` is 0; a negative one is rejected; any other is used as given, so the cursor is never negative |
| Database.Store.FreshId | src/Server/routes/v1/tags.js:150 | a new document gets an id that no stored tag or item uses |
| TagRoutes.NewTag | src/Server/routes/v1/tags.js:150-151 | a tag created by a lookup carries only its uid; its type is `unknown` and it has no item |
| TagRoutes.LookupUid | src/Server/routes/v1/tags.js:143-168 | 200 exactly when a tag with the uid is stored, answering that tag and storing nothing; 201 exactly on a miss with a successful save, storing one new tag with that uid; 400 on a lookup error or a failed save; 500 when the save returns no document; no change unless 201 |
| TagRoutes.UpdateTagStep | src/Server/routes/v1/tags.js:211-235 | 200 exactly when the tag exists, the type is in the enumeration and the save succeeds; the stored tag then has exactly the request's type and item, with its uid kept; 404 for a missing id; 400 on an error or invalid type; 500 on an empty save; every failure leaves the tags unchanged |
| TagRoutes.DeleteTagStep | src/Server/routes/v1/tags.js:263-276 | 204 exactly when the id exists, removing only that tag; 404 for a missing id and 400 on a store error, both without change |
| TagRoutes.LookupUidIdempotent | src/Server/routes/v1/tags.js:149-165 | after a lookup answered 200 or 201, a second lookup of the same uid answers 200 with the same id and document and stores nothing |
| TagRoutes.LookupUidKeepsInvariants | src/Server/routes/v1/tags.js:149-161 | a lookup keeps every tag consistent and never stores a second tag for a stored uid |
| TagRoutes.UpdateTagKeepsConsistency | src/Server/routes/v1/tags.js:220-231 | if the request names type `item` exactly when it gives an item, every stored tag is still consistent after the update |
| TagRoutes.UpdateTagCanBreakConsistency | src/Server/routes/v1/tags.js:220-221 | the route copies the body verbatim: a saved update to type `item` without an item stores an inconsistent tag |
| TagRoutes.UpdateTagKeepsUids | src/Server/routes/v1/tags.js:220-221 | an update never changes a uid, so stored uids stay unique |
| TagRoutes.DeleteTagKeepsInvariants | src/Server/routes/v1/tags.js:265-273 | a tag deletion keeps both tag invariants and leaves every other tag as it was |
| TagRoutes.ListTags | src/Server/routes/v1/tags.js:59-69 | 200 with the tags in natural order after `skip`, or 400 with nothing when the cursor is invalid or the find fails |
| TagRoutes.GetTag | src/Server/routes/v1/tags.js:99-111 | 200 with the stored tag exactly when the id exists, 404 when it does not, 400 on a store error |
| TagRoutes.FindOrCreateByUid | src/Server/routes/v1/tags.js:143-168 | the handler's answer and new store state are those of `LookupUid` |
| TagRoutes.UpdateTag | src/Server/routes/v1/tags.js:211-235 | the handler assigns type and item on the loaded tag and saves it; its answer and new state are those of `UpdateTagStep` |
| TagRoutes.DeleteTag | src/Server/routes/v1/tags.js:263-276 | the handler's answer and new state are those of `DeleteTagStep` |
| ItemRoutes.Released | src/Server/routes/v1/items.js:276-279 | the cascade's change sets type `unknown`, unsets the item and keeps the uid, so the released tag is consistent |
| ItemRoutes.ReleaseTag | src/Server/routes/v1/items.js:276-287 | every tag is either untouched or is a tag of the item that was released; at most one tag is rewritten, namely the first in natural order that references the item; with no such tag nothing changes |
| ItemRoutes.CreateItemStep | src/Server/routes/v1/items.js:156-173 | 201 exactly on a successful save, storing one item under a fresh id with the body's name and description and no amount; 400 on a failed save, 500 on an empty save, both without change |
| ItemRoutes.UpdateItemStep | src/Server/routes/v1/items.js:217-238 | 200 exactly when the id exists and the store accepts; name, description and amount are replaced and the post-update record is answered; 404 for a missing id and 400 on rejection, both without change |
| ItemRoutes.DeleteItemStep | src/Server/routes/v1/items.js:266-295 | 204 exactly when the item exists, removing it and releasing its tag unless the cascade write fails; 404 for a missing id and 400 on a store error, both touching neither items nor tags |
| ItemRoutes.ReleaseClearsSoleReference | src/Server/routes/v1/items.js:281 | when at most one tag references the item, no tag references it after the cascade |
| ItemRoutes.ReleaseLeavesSecondReference | src/Server/routes/v1/items.js:281 | when two tags reference the item, one of them still does after the cascade, because the update lacks the multi option |
| ItemRoutes.ReleaseKeepsInvariants | src/Server/routes/v1/items.js:276-281 | the cascade keeps every tag consistent and keeps uids unique |
| ItemRoutes.DeleteItemStatusIgnoresCascade | src/Server/routes/v1/items.js:281-291 | the delete's status and its effect on items are the same whether or not the cascade write fails |
| ItemRoutes.DeleteItemKeepsInvariants | src/Server/routes/v1/items.js:266-295 | deleting an item keeps both tag invariants, whatever the cascade does |
| ItemRoutes.ListItems | src/Server/routes/v1/items.js:71-81 | 200 with the items in natural order after `skip`, or 400 with nothing |
| ItemRoutes.GetItem | src/Server/routes/v1/items.js:111-124 | 200 with the stored item exactly when the id exists, 404 when it does not, 400 on a store error |
| ItemRoutes.CreateItem | src/Server/routes/v1/items.js:156-173 | the handler's answer and new state are those of `CreateItemStep` |
| ItemRoutes.UpdateItem | src/Server/routes/v1/items.js:217-238 | the handler's answer and new state are those of `UpdateItemStep` |
| ItemRoutes.ReleaseTagOf | src/Server/routes/v1/items.js:281-287 | the cascade write leaves the tags as `ReleaseTag` describes and changes nothing else |
| ItemRoutes.DeleteItem | src/Server/routes/v1/items.js:266-295 | the two successive writes give the answer and state of `DeleteItemStep` |
| DeviceRoutes.WithAllowed | src/Server/routes/v1/devices.js:159-161 | the update document sets `allowed` and keeps every other device field |
| DeviceRoutes.UpdateDeviceStep | src/Server/routes/v1/devices.js:157-176 | 200 exactly when the device exists and the store accepts, answering the device with only `allowed` changed; 404 for a missing id and 400 on a store error, both without change |
| DeviceRoutes.DeleteDeviceStep | src/Server/routes/v1/devices.js:204-217 | 204 exactly when the device exists, removing only that one; 404 for a missing id and 400 on a store error, both without change |
| DeviceRoutes.UpdateDeviceTouchesOnlyAllowed | src/Server/routes/v1/devices.js:159-165 | after an update every device keeps every field, except that the updated device has the new `allowed` |
| DeviceRoutes.ListDevices | src/Server/routes/v1/devices.js:70-80 | 200 with the devices in natural order after `skip`, or 400 with nothing; the search term does not filter, because the route passes `query.query` |
| DeviceRoutes.GetDevice | src/Server/routes/v1/devices.js:110-122 | 200 with the stored device exactly when the id exists, 404 when it does not, 400 on a store error |
| DeviceRoutes.UpdateDevice | src/Server/routes/v1/devices.js:157-176 | the handler's answer and new state are those of `UpdateDeviceStep` |
| DeviceRoutes.DeleteDevice | src/Server/routes/v1/devices.js:204-217 | the handler's answer and new state are those of `DeleteDeviceStep` |
| DeviceActions.Reported | src/Server/devices/basic.js:11-13 | the reported device has the data's serial number and version and every other field unchanged |
| DeviceActions.SaveReport | src/Server/devices/basic.js:14-17 | a successful save writes the two reported fields of that stored device only; a failed save changes nothing |
| DeviceActions.Info | src/Server/devices/basic.js:11-18 | the document's serial number and version become the data's whatever the save does; the store changes as `SaveReport` says; nothing is returned, so a save failure does not reach the caller |
| DeviceActions.Actions | src/Server/devices/basic.js:3-9 | action `info` behaves as `Info`; any other action changes neither the document nor the store |
| DeviceActions.ReportCommutesWithAllowed | src/Server/devices/basic.js:12-13 | a self-report and a gate update touch disjoint fields and commute |
| Lifecycle.Run | src/Server/routes/v1/tags.js:143-235 | handling any sequence of requests keeps the store well formed, never moves the id counter back, and every tag or item stored by the run but absent at its start has an id at or above the counter it started from |
| Lifecycle.RunAppend | src/Server/routes/v1/tags.js:143-235 | handling two sequences one after the other is handling their concatenation |
| Lifecycle.RunPrefixFresh | src/Server/routes/v1/tags.js:150 | between any two points of a run, every tag or item stored in between has an id at or above the counter at the earlier point, so an id once handed out is never handed out again, even after its document was deleted |
| Lifecycle.StepKeepsTagInvariants | src/Server/routes/v1/tags.js:211-235 | every state-changing request whose tag update, if any, respects the invariant keeps both tag invariants |
| Lifecycle.RunKeepsTagInvariants | src/Server/routes/v1/tags.js:220-221 | after any sequence of requests whose tag updates respect the invariant, every tag is consistent and uids are unique |
| Lifecycle.BindThenDeleteReleases | src/Server/routes/v1/items.js:276-291 | create an item (201), look up a new uid (201), bind that tag to the item (200), delete the item (204): the tag ends as type `unknown` with no item |

## Code and intended behaviour

- **The tag invariant is not enforced.** A tag is meant to refer to an item exactly when its type is `item`: no transition should produce type `item` without an item, or an item on an `unknown` or `mode` tag. The update route copies `type` and `item` from the body verbatim (`tags.js:220-221`). The model follows the code. It proves the invariant only under the condition that each update request respects it (`UpdateTagKeepsConsistency`, `RunKeepsTagInvariants`). `UpdateTagCanBreakConsistency` shows a request that breaks it.
- **Only one tag is released.** Deleting an item is meant to release every tag bound to it, leaving no tag that refers to a deleted item. The cascade is an `update` without the multi option, so it rewrites at most one tag: the first in natural order. The model follows the code. `ReleaseClearsSoleReference` proves the intended outcome when at most one tag references the item. `ReleaseLeavesSecondReference` shows that with two referencing tags, one stays stale.
- **No type is an implicit fourth state.** A tag created by a lookup has no `type`. The model stores it as `unknown`, the state such a tag is meant to be treated as.

## Left out

- HTTP and routing plumbing (restify, response bodies beyond the stored document, swagger comments): only the outcome codes and the answered document are modelled.
- Authentication and the admin role check in front of the device routes: `auth.js` is not part of this model. Every handler is modelled as if the request were admitted.
- The query library's parsing is left out except for `skip`. Its `limit`, `sort` and `select` defaults are not modelled, so a listing here returns every document after `skip` in insertion order.
- ListItems: the regular-expression search on name and description is not modelled (foreign matching behaviour), so the listing is the unfiltered one.
- The mongoose schemas of tags, items and devices are not part of this model.
  - Tags: only the `type` enumeration of the update route is checked explicitly. Every other failure is folded into the handler's `findFails`, `fails` or `SaveReply` parameter. Examples are a malformed `tag_id` in a get, update or delete (`tags.js:101`, `tags.js:213`, `tags.js:265`), and an `item` that is not an id, which makes the save at `tags.js:223` fail.
  - Items and devices: validation failures, and failed casts of ids or values, are folded into the handler's `fails` or `SaveReply` parameter.
- Request bodies: tag updates always carry a `type` string, and device updates always carry a boolean `allowed`. An absent `type` or `allowed` is copied as it is by `tags.js:220` and `devices.js:160`, and how the unseen schemas treat that is not known, so neither is modelled. An absent `item`, `description` or `amount` is modelled as unset. A self-report always carries a serial number and a version: `basic.js:12-13` copies them as they are, so an absent value would unset the device field, and that case is not modelled.
- A save whose callback gets neither an error nor a document (the 500 branches) is modelled as having stored nothing.
- Asynchronous callbacks, and two concurrent first lookups of one uid. Uid uniqueness under races belongs to the storage layer. The model is sequential, and `LookupUidKeepsInvariants` proves that sequential lookups never store a uid twice.
- The cascade's error branch passes an error to `next` after the 204 was sent (`items.js:282-283`). This is only logged. The model leaves the tags unchanged and keeps the 204.
- Logging (`req.log.info`, `logger.error`).
- The `server` argument of `actions` is unused by the code and is not modelled.
- Devices are registered by code that is not part of this model. The store's constructor takes the device collection as given.
- Ids are a counter rather than generated object ids. Only their freshness matters to the routes.
