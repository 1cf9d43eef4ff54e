/** The `get_item` template filter: a dictionary lookup that shows `N/A`
    for a missing key. */
module CustomTags {

  const NotAvailable: string := "N/A"

  /** `dictionary.get(key, 'N/A')`. */
  function GetItem<K>(dictionary: map<K, string>, key: K): (r: string)
    ensures key in dictionary ==> r == dictionary[key]
    ensures key !in dictionary ==> r == NotAvailable
    ensures r in dictionary.Values || r == NotAvailable
  {
    if key in dictionary then dictionary[key] else NotAvailable
  }

  /** `N/A` is shown exactly when the key is missing or is mapped to the text
      `N/A` itself: the filter cannot tell those two apart. */
  lemma GetItemNotAvailable<K>(dictionary: map<K, string>, key: K)
    ensures GetItem(dictionary, key) == NotAvailable
        <==> key !in dictionary || dictionary[key] == NotAvailable
  {
  }
}
