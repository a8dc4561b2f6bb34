/** Files as a WebDAV server lists them. */
module Remote {
  datatype RemoteFile = RemoteFile(href: string, name: string, size: nat, modified: string)
}
