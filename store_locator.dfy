/** `findCookieStore` (background.js:20): the first cookie store that satisfies
    a filter, over the list `chrome.cookies.getAllCookieStores` reports. */
module StoreLocator {
  import opened Wrappers

  /** `chrome.cookies.CookieStore`: a store id and the tabs that use it. */
  datatype CookieStore = CookieStore(id: string, tabIds: seq<int>)

  /** `stores.find(filter)`. */
  function FindCookieStore(stores: seq<CookieStore>, filter: CookieStore -> bool): (r: Option<CookieStore>)
    ensures r.None? <==> forall i :: 0 <= i < |stores| ==> !filter(stores[i])
    ensures r.Some? ==> exists i :: 0 <= i < |stores| && stores[i] == r.value && filter(stores[i]) &&
                                    forall j :: 0 <= j < i ==> !filter(stores[j])
  {
    if stores == [] then None
    else if filter(stores[0]) then Some(stores[0])
    else
      var r := FindCookieStore(stores[1..], filter);
      assert r.Some? ==> exists i :: 0 <= i < |stores| && stores[i] == r.value && filter(stores[i]) &&
                                       forall j :: 0 <= j < i ==> !filter(stores[j]) by {
        if r.Some? {
          var i :| 0 <= i < |stores| - 1 && stores[1..][i] == r.value && filter(stores[1..][i]) &&
            forall j :: 0 <= j < i ==> !filter(stores[1..][j]);
          assert forall j :: 1 <= j < i + 1 ==> stores[j] == stores[1..][j - 1];
        }
      }
      assert r.None? ==> forall i :: 0 <= i < |stores| ==> !filter(stores[i]) by {
        if r.None? {
          forall i | 1 <= i < |stores| ensures !filter(stores[i]) {
            assert stores[i] == stores[1..][i - 1];
          }
        }
      }
      r
  }

  /** The store whose id is the given one, as the change handler looks it up. */
  function ById(storeId: string): CookieStore -> bool
  {
    (s: CookieStore) => s.id == storeId
  }

  /** The store that a tab belongs to, as the request handler looks it up. */
  function HoldingTab(tabId: int): CookieStore -> bool
  {
    (s: CookieStore) => tabId in s.tabIds
  }

  /** Looking a store up by id finds a store with that id exactly when the list
      has one. */
  lemma FindById(stores: seq<CookieStore>, storeId: string)
    ensures FindCookieStore(stores, ById(storeId)).Some? <==>
      exists i :: 0 <= i < |stores| && stores[i].id == storeId
    ensures FindCookieStore(stores, ById(storeId)).Some? ==>
      FindCookieStore(stores, ById(storeId)).value.id == storeId
  {
    var r := FindCookieStore(stores, ById(storeId));
    if r.Some? {
      var i :| 0 <= i < |stores| && stores[i] == r.value && ById(storeId)(stores[i]);
    } else {
      forall i | 0 <= i < |stores| ensures stores[i].id != storeId {
        assert !ById(storeId)(stores[i]);
      }
    }
  }
}
