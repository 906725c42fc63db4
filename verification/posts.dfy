/** The post record the site reads from its store. Timestamps the filters compare are kept
    as milliseconds since the epoch; the others stay as the ISO text the store returns. */
module Posts {
  import opened Wrappers

  /** A post is a draft, scheduled for later, or published. */
  datatype Status = Draft | Scheduled | Published

  datatype Post = Post(
    id: string,
    slug: string,
    title: string,
    subtitle: Option<string>,
    description: Option<string>,
    body: Option<string>,
    coverImage: Option<string>,
    category: string,
    status: Status,
    featured: bool,
    popular: bool,
    showUpdatedAt: bool,
    scheduledAt: Option<string>,
    publishedAt: Option<string>,
    authorId: Option<string>,
    createdAt: int,
    updatedAt: string)
}
