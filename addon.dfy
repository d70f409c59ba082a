/**
 * The add-on entities of the archive: a descriptor as the remote catalog
 * lists it, a record as the archive stores it, and a download request, with
 * the constants and string templates the update pass builds URLs and paths
 * from.
 */
module Addon {
  import JsString

  datatype Option<T> = None | Some(value: T)

  /** One entry of a remote catalog bucket; `category` is a 1-based index into the catalog's category list. */
  datatype Descriptor = Descriptor(uuid: string, name: string, author: string, version: string, category: int)

  /**
   * One entry of a stored bucket. `category` is the resolved label; it is
   * absent when the descriptor's index fell outside the category list
   * (JavaScript yields `undefined` there).
   */
  datatype Record = Record(
    uuid: string, name: string, author: string, version: string,
    category: Option<string>, isDeleted: bool)

  /** A request to fetch `url` into the file `path`; only the request is modelled. */
  datatype Download = Download(url: string, path: string)

  const ADDON_DOWNLOAD_URL: string := "https://dl.labymod.net/latest/?file=%s&a=1"
  const ADDON_ICON_URL: string := "https://dl.labymod.net/latest/addons/%s/icon.png"

  /** `categories[index - 1]`, with JavaScript's `undefined` for an index outside the list. */
  function CategoryLabel(index: int, categories: seq<string>): Option<string>
  {
    if 1 <= index <= |categories| then Some(categories[index - 1]) else None
  }

  /** The record the pass stores for a descriptor: category resolved, not deleted. */
  function FromDescriptor(d: Descriptor, categories: seq<string>): Record
  {
    Record(d.uuid, d.name, d.author, d.version, CategoryLabel(d.category, categories), false)
  }

  /** The add-on's data directory `./data/addons/mc<version>/<uuid>`, `version` being the bucket key. */
  function DataDir(version: string, uuid: string): string
  {
    "./data/addons/mc" + version + "/" + uuid
  }

  function IconUrl(uuid: string): string
  {
    JsString.Replace(ADDON_ICON_URL, "%s", uuid)
  }

  function JarUrl(uuid: string): string
  {
    JsString.Replace(ADDON_DOWNLOAD_URL, "%s", uuid)
  }

  /** The icon request for a new add-on of bucket `version`. */
  function IconDownload(version: string, d: Descriptor): Download
  {
    Download(IconUrl(d.uuid), DataDir(version, d.uuid) + "/icon.png")
  }

  /** The jar request, named after the descriptor's own name and version. */
  function JarDownload(version: string, d: Descriptor): Download
  {
    Download(JarUrl(d.uuid), DataDir(version, d.uuid) + "/" + d.name + "-v" + d.version + ".jar")
  }

  /** A uuid without `$` lands verbatim in place of the icon template's `%s`. */
  lemma IconUrlOfUuid(uuid: string)
    requires '$' !in uuid
    ensures IconUrl(uuid) == "https://dl.labymod.net/latest/addons/" + uuid + "/icon.png"
  {
    var p, q := "https://dl.labymod.net/latest/addons/", "/icon.png";
    assert ADDON_ICON_URL == p + "%s" + q;
    JsString.ReplaceFirstOccurrence(p, "%s", q, uuid);
  }

  /** A uuid without `$` lands verbatim in place of the download template's `%s`. */
  lemma JarUrlOfUuid(uuid: string)
    requires '$' !in uuid
    ensures JarUrl(uuid) == "https://dl.labymod.net/latest/?file=" + uuid + "&a=1"
  {
    var p, q := "https://dl.labymod.net/latest/?file=", "&a=1";
    assert ADDON_DOWNLOAD_URL == p + "%s" + q;
    JsString.ReplaceFirstOccurrence(p, "%s", q, uuid);
  }

  /** `$&` in a uuid is expanded to the matched `%s`, as JavaScript's replace does. */
  lemma IconUrlExpandsMatch()
    ensures IconUrl("$&") == ADDON_ICON_URL
  {
    var p, q := "https://dl.labymod.net/latest/addons/", "/icon.png";
    assert ADDON_ICON_URL == p + "%s" + q;
    JsString.ReplaceFirstOccurrence(p, "%s", q, "$&");
    JsString.SubstituteMatch("%s", p, q);
  }
}
